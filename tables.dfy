/** The constant tables of the mock analyser, and the ranges of the random
    draws that index them (`Math.floor(Math.random() * n)` lies in [0, n)). */
module Tables {

  /** `posTypes`: the human-readable part-of-speech categories. */
  const PosTypes: seq<string> :=
    ["noun", "verb", "adjective", "adverb", "pronoun", "preposition", "conjunction", "determiner", "other"]

  /** `posTags`: the tag codes, parallel to `PosTypes`. */
  const PosTags: seq<string> := ["NN", "VB", "JJ", "RB", "PRP", "IN", "CC", "DT", "OTHER"]

  /** `entityTypes`: the entity labels. */
  const EntityTypes: seq<string> :=
    ["person", "organization", "location", "date", "time", "money", "percent", "other"]

  /** The relation labels of inner syntax-tree nodes. */
  const Relations: seq<string> := ["subj", "pred", "obj", "mod"]

  /** The relation label of syntax-tree leaves. */
  const LeafRelation: string := "leaf"

  /** A draw `Math.floor(Math.random() * PosTags.length)`. */
  type PosIndex = i: nat | i < 9

  /** A draw `Math.floor(Math.random() * entityTypes.length)`. */
  type EntityIndex = i: nat | i < 8

  /** A draw `Math.floor(Math.random() * 4)`. */
  type RelationIndex = i: nat | i < 4

  /** A draw of `Math.random()` itself. */
  type UnitReal = r: real | 0.0 <= r < 1.0
}
