/** The part-of-speech view: the `tagMappings` table from tag codes to
    descriptions, the legend listing it, and one span per tagged word whose
    title is the description of its tag, or the tag itself when the table
    has none. */
module PosTaggingView {
  import opened Wrappers
  import opened JsString
  import opened Tables
  import opened Analysis

  /** `tagMappings`, in declaration order. */
  const TagMappings: seq<(string, string)> := [
    ("NN", "Noun"), ("VB", "Verb"), ("JJ", "Adjective"), ("RB", "Adverb"), ("PRP", "Pronoun"),
    ("IN", "Preposition"), ("CC", "Conjunction"), ("DT", "Determiner"), ("OTHER", "Other")]

  /** `m[key]` for a table of distinct keys: the value of the first entry with
      that key. */
  function Lookup(m: seq<(string, string)>, key: string): (r: Option<string>)
    ensures r.None? <==> forall i :: 0 <= i < |m| ==> m[i].0 != key
    decreases |m|
  {
    if m == [] then None
    else if m[0].0 == key then Some(m[0].1)
    else
      var r := Lookup(m[1..], key);
      assert forall i :: 1 <= i < |m| ==> m[i] == m[1..][i - 1];
      r
  }

  /** `tagMappings[pos.tag] || pos.tag`: the description, unless there is
      none (or it is empty), then the tag. */
  function Title(tag: string): string {
    match Lookup(TagMappings, tag)
    case Some(d) => if d != "" then d else tag
    case None => tag
  }

  /** No two entries of `m` share a key. */
  predicate DistinctKeys(m: seq<(string, string)>) {
    forall i, j :: 0 <= i < j < |m| ==> m[i].0 != m[j].0
  }

  /** In a table of distinct keys, looking up the key of entry `i` finds the
      value of entry `i`. */
  lemma {:induction false} LookupEntry(m: seq<(string, string)>, i: nat)
    requires DistinctKeys(m) && i < |m|
    ensures Lookup(m, m[i].0) == Some(m[i].1)
    decreases i
  {
    if i > 0 {
      var tail := m[1..];
      assert tail[i - 1] == m[i];
      assert m[0].0 != m[i].0;
      assert DistinctKeys(tail) by {
        forall a, b | 0 <= a < b < |tail| ensures tail[a].0 != tail[b].0 {
          assert tail[a] == m[a + 1] && tail[b] == m[b + 1];
        }
      }
      LookupEntry(tail, i - 1);
    }
  }

  /** The codes of the table are those of the analyser, in the same order. */
  lemma TagMappingsKeys()
    ensures |TagMappings| == |PosTags|
    ensures forall i :: 0 <= i < |PosTags| ==> TagMappings[i].0 == PosTags[i]
    ensures DistinctKeys(TagMappings)
    ensures forall i :: 0 <= i < |TagMappings| ==> TagMappings[i].1 != ""
  {
  }

  /** Every code of the table has its listed description as its title. */
  lemma TitleOfKnownTag(i: nat)
    requires i < |TagMappings|
    ensures Title(TagMappings[i].0) == TagMappings[i].1
  {
    TagMappingsKeys();
    var key, d := TagMappings[i].0, TagMappings[i].1;
    LookupEntry(TagMappings, i);
    TitleOfFound(key, d);
  }

  lemma TitleOfFound(tag: string, d: string)
    requires Lookup(TagMappings, tag) == Some(d) && d != ""
    ensures Title(tag) == d
  {
  }

  /** A tag the table does not list is its own title. */
  lemma TitleOfUnknownTag(tag: string)
    requires forall i :: 0 <= i < |TagMappings| ==> TagMappings[i].0 != tag
    ensures Title(tag) == tag
  {
  }

  /** Each description is the category of the same index with its first
      letter capitalised. */
  lemma DescriptionsAreCapitalisedTypes(i: nat)
    requires i < |PosTypes|
    ensures TagMappings[i].1 == Capitalize(PosTypes[i])
  {
    var t, d := PosTypes[i], TagMappings[i].1;
    CapitalizeFirst(t, d);
  }

  lemma CapitalizeFirst(t: string, d: string)
    requires |t| > 0 && |d| == |t| && d[1..] == t[1..]
    requires 'a' <= t[0] <= 'z' && d[0] as int == t[0] as int - 32
    ensures d == Capitalize(t)
  {
  }

  /** So every tag the analyser emits has a title from the table: the
      capitalised category. */
  lemma TagMappingsMatchTables(i: nat)
    requires i < |PosTags|
    ensures Title(PosTags[i]) == Capitalize(PosTypes[i])
  {
    TagMappingsKeys();
    TitleOfKnownTag(i);
    DescriptionsAreCapitalisedTypes(i);
  }

  /** `Object.entries(tagMappings).map(([tag, description]) => tag - description)`. */
  function Legend(): (r: seq<string>)
    ensures |r| == |TagMappings|
    ensures forall i :: 0 <= i < |r| ==> r[i] == TagMappings[i].0 + " - " + TagMappings[i].1
  {
    seq(|TagMappings|, i requires 0 <= i < |TagMappings| => TagMappings[i].0 + " - " + TagMappings[i].1)
  }

  /** The legend lists the analyser's tags in order, each with its category
      capitalised. */
  lemma LegendMatchesTables()
    ensures |Legend()| == |PosTags|
    ensures forall i :: 0 <= i < |PosTags| ==> Legend()[i] == PosTags[i] + " - " + Capitalize(PosTypes[i])
  {
    TagMappingsKeys();
    forall i | 0 <= i < |PosTags| ensures Legend()[i] == PosTags[i] + " - " + Capitalize(PosTypes[i]) {
      DescriptionsAreCapitalisedTypes(i);
    }
  }

  /** One rendered word: its text, its tag, its class `pos-tag pos-<type>` and
      its title. */
  datatype TagSpan = TagSpan(word: string, tag: string, className: string, title: string)

  /** `posTagging.map(...)`: one span per tagged word, in order. */
  function Spans(tags: seq<POSTag>): (r: seq<TagSpan>)
    ensures |r| == |tags|
    ensures forall i :: 0 <= i < |r| ==>
      r[i] == TagSpan(tags[i].word, tags[i].tag, "pos-tag pos-" + tags[i].posType, Title(tags[i].tag))
  {
    seq(|tags|, i requires 0 <= i < |tags| =>
      TagSpan(tags[i].word, tags[i].tag, "pos-tag pos-" + tags[i].posType, Title(tags[i].tag)))
  }

  /** For the analyser's tagging, span `i` shows word `i` and its title is the
      capitalised category of its tag. */
  lemma SpansOfAnalysis(words: seq<string>, pick: nat -> PosIndex)
    ensures var s := Spans(PosTagging(words, pick));
      |s| == |words| &&
      forall i :: 0 <= i < |s| ==> s[i].word == words[i] && s[i].title == Capitalize(PosTagging(words, pick)[i].posType)
  {
    var tags := PosTagging(words, pick);
    PosTaggingParallel(words, pick);
    forall i | 0 <= i < |tags| ensures Title(tags[i].tag) == Capitalize(tags[i].posType) {
      assert ParallelEntry(tags[i]);
      var k :| 0 <= k < |PosTags| && tags[i].tag == PosTags[k] && tags[i].posType == PosTypes[k];
      TagMappingsMatchTables(k);
    }
  }
}
