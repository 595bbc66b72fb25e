/** A learner's report to the central agent: the learner's name and the
    number of greedy moves its rollout needed. Reports are ordered by that
    number alone. */
module Entities {

  class QLEntity {
    var name: string
    var stepsNb: int

    /** The constructor stores both values as given. */
    constructor (name: string, stepsNb: int)
      ensures this.name == name && this.stepsNb == stepsNb
    {
      this.name := name;
      this.stepsNb := stepsNb;
    }

    function GetName(): (r: string)
      reads this
      ensures r == name
    {
      name
    }

    function GetStepsNb(): (r: int)
      reads this
      ensures r == stepsNb
    {
      stepsNb
    }

    /** Changes the name and leaves the step count alone. */
    method SetName(name: string)
      modifies this`name
      ensures this.name == name && stepsNb == old(stepsNb)
    {
      this.name := name;
    }

    /** Changes the step count and leaves the name alone. */
    method SetStepsNb(stepsNb: int)
      modifies this`stepsNb
      ensures this.stepsNb == stepsNb && name == old(name)
    {
      this.stepsNb := stepsNb;
    }

    /** `compareTo`: the sign of the difference of the step counts. */
    function CompareTo(o: QLEntity): (c: int)
      reads this, o
      ensures c == 1 <==> stepsNb > o.stepsNb
      ensures c == -1 <==> stepsNb < o.stepsNb
      ensures c == 0 <==> stepsNb == o.stepsNb
    {
      if stepsNb > o.stepsNb then 1
      else if stepsNb < o.stepsNb then -1
      else 0
    }
  }

  /** Swapping the operands negates the comparison. */
  lemma CompareAntisymmetric(a: QLEntity, b: QLEntity)
    ensures a.CompareTo(b) == -b.CompareTo(a)
  {
  }

  /** Every report compares equal to itself. */
  lemma CompareReflexive(a: QLEntity)
    ensures a.CompareTo(a) == 0
  {
  }

  /** "Not after" is transitive, so the comparison is a total preorder. */
  lemma CompareTransitive(a: QLEntity, b: QLEntity, c: QLEntity)
    requires a.CompareTo(b) <= 0 && b.CompareTo(c) <= 0
    ensures a.CompareTo(c) <= 0
  {
  }

  /** Two reports with the same step count compare alike with every other
      report, whatever their names: the name plays no part. */
  lemma CompareIgnoresName(a: QLEntity, b: QLEntity, c: QLEntity)
    requires a.stepsNb == b.stepsNb
    ensures a.CompareTo(c) == b.CompareTo(c) && c.CompareTo(a) == c.CompareTo(b)
  {
  }
}
