/** `fuzzy_score`: how well a query matches one command record. */
module Fuzzy {

  /** The two foreign functions the score rests on, left abstract:
      rapidfuzz's `fuzz.partial_ratio`, whose result is a float, and Python's `str.lower`. */
  datatype Matcher = Matcher(ratio: (string, string) -> real, lower: string -> string)

  /** partial_ratio stays on its 0..100 scale. */
  ghost predicate RatioInRange(m: Matcher) {
    forall a, b :: 0.0 <= m.ratio(a, b) <= 100.0
  }

  /** partial_ratio of the lower-cased query against one lower-cased field. */
  function FieldScore(m: Matcher, query: string, field: string): real {
    m.ratio(m.lower(query), m.lower(field))
  }

  /** The best of the three field scores: against the tags, the description and the command. */
  function FuzzyScore(m: Matcher, query: string, tags: string, desc: string, cmd: string): (r: real)
    ensures r >= FieldScore(m, query, tags)
    ensures r >= FieldScore(m, query, desc)
    ensures r >= FieldScore(m, query, cmd)
    ensures r == FieldScore(m, query, tags) || r == FieldScore(m, query, desc) || r == FieldScore(m, query, cmd)
    ensures RatioInRange(m) ==> 0.0 <= r <= 100.0
  {
    var a := FieldScore(m, query, tags);
    var b := FieldScore(m, query, desc);
    var c := FieldScore(m, query, cmd);
    var ab := if a >= b then a else b;
    if ab >= c then ab else c
  }
}
