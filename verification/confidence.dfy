/** The colour class the result card gives the free-text confidence string. */
module Confidence {
  import opened Text

  /** The three styles of the confidence badge. */
  datatype Level = Low | Medium | High

  /** The card starts from the low style, switches to high when the lower-cased
      text mentions "high", then to medium when it mentions "medium". */
  function Classify(confidence: string): (r: Level)
    ensures r == Medium <==> Contains(Lower(confidence), "medium")
    ensures r == High <==> Contains(Lower(confidence), "high") && !Contains(Lower(confidence), "medium")
    ensures r == Low <==> !Contains(Lower(confidence), "high") && !Contains(Lower(confidence), "medium")
  {
    var start := Low;
    var afterHigh := if Contains(Lower(confidence), "high") then High else start;
    if Contains(Lower(confidence), "medium") then Medium else afterHigh
  }

  /** The class depends only on the lower-cased text. */
  lemma ClassifyIgnoresCase(s: string)
    ensures Classify(Lower(s)) == Classify(s)
  {
    LowerIdempotent(s);
  }

  /** Text mentioning "medium" in any case gets the medium style. */
  lemma MediumAt(s: string, i: int)
    requires OccursAt(Lower(s), "medium", i)
    ensures Classify(s) == Medium
  {
    ContainsIff(Lower(s), "medium");
  }

  /** "medium" wins over "high" when both occur, since its check runs last. */
  lemma MediumBeatsHigh(s: string)
    requires Contains(Lower(s), "high") && Contains(Lower(s), "medium")
    ensures Classify(s) == Medium
  {
  }

  /** A text naming both levels in mixed case gets the medium style. */
  lemma MediumBeatsHighExample()
    ensures Classify("High or Medium") == Medium
  {
    var l := Lower("High or Medium");
    assert l[8..14] == "medium";
    MediumAt("High or Medium", 8);
  }

  /** Text whose lower-cased form has no 'h' and no 'e' gets the low style. */
  lemma LowWithoutHOrE(s: string)
    requires 'h' !in Lower(s) && 'e' !in Lower(s)
    ensures Classify(s) == Low
  {
    NotContains(Lower(s), "high", 0);
    NotContains(Lower(s), "medium", 1);
  }

  /** The offline placeholder's confidence text gets the low style. */
  lemma MockConfidenceIsLow()
    ensures Classify("Low (Mock)") == Low
  {
    assert Lower("Low (Mock)") == "low (mock)";
    LowWithoutHOrE("Low (Mock)");
  }
}
