/**
 * The policy-requirements schema: one record per extracted requirement and
 * a collection object that keeps summary counts of the requirement types.
 */
module PolicySchema {
  import opened Wrappers

  /** One obligation, recommendation or prohibition found in a policy. */
  datatype Requirement = Requirement(
    requirementId: string,
    statement: string,
    requirementType: string,
    sourcePolicyId: string,
    sourceSection: Option<string>,
    appliesTo: seq<string>,
    conditions: seq<string>,
    exceptions: seq<string>,
    regulatoryBasis: seq<string>,
    priority: Option<string>,
    enforcementMechanism: Option<string>)

  /** A value snapshot of every field of a `PolicyRequirements` object. */
  datatype Record = Record(
    policyId: string,
    policyTitle: string,
    policyType: string,
    policyVersion: Option<string>,
    effectiveDate: Option<string>,
    requirements: seq<Requirement>,
    totalMandatory: int,
    totalRecommended: int,
    totalProhibited: int,
    extractionTimestamp: Option<string>,
    modelUsed: Option<string>,
    extractionNotes: seq<string>)

  /** The number of requirements of type `t`: `sum(1 for r in rs if r.requirement_type == t)`. */
  function CountType(rs: seq<Requirement>, t: string): (n: nat)
    ensures n <= |rs|
  {
    if rs == [] then 0
    else CountType(rs[..|rs| - 1], t) + (if rs[|rs| - 1].requirementType == t then 1 else 0)
  }

  /** The number of requirements whose type is none of the three known ones. */
  function CountUnclassified(rs: seq<Requirement>): (n: nat)
    ensures n <= |rs|
  {
    if rs == [] then 0
    else
      var t := rs[|rs| - 1].requirementType;
      CountUnclassified(rs[..|rs| - 1]) + (if t in {"mandatory", "recommended", "prohibited"} then 0 else 1)
  }

  /** Counting distributes over concatenation. */
  lemma {:induction false} CountTypeAppend(a: seq<Requirement>, b: seq<Requirement>, t: string)
    ensures CountType(a + b, t) == CountType(a, t) + CountType(b, t)
    decreases |b|
  {
    if b == [] {
      assert a + b == a;
    } else {
      assert (a + b)[..|a + b| - 1] == a + b[..|b| - 1];
      assert (a + b)[|a + b| - 1] == b[|b| - 1];
      CountTypeAppend(a, b[..|b| - 1], t);
    }
  }

  /** No requirement has type `t` exactly when the count of `t` is zero. */
  lemma {:induction false} CountTypeZeroIff(rs: seq<Requirement>, t: string)
    ensures CountType(rs, t) == 0 <==> forall k :: 0 <= k < |rs| ==> rs[k].requirementType != t
  {
    if rs != [] {
      var init := rs[..|rs| - 1];
      CountTypeZeroIff(init, t);
      if CountType(rs, t) == 0 {
        forall k | 0 <= k < |rs| ensures rs[k].requirementType != t {
          if k < |rs| - 1 {
            assert rs[k] == init[k];
          }
        }
      } else if CountType(init, t) != 0 {
        var k :| 0 <= k < |init| && init[k].requirementType == t;
        assert rs[k] == init[k];
      }
    }
  }

  /** Every requirement has type `t` exactly when all of them are counted. */
  lemma {:induction false} CountTypeAllIff(rs: seq<Requirement>, t: string)
    ensures CountType(rs, t) == |rs| <==> forall k :: 0 <= k < |rs| ==> rs[k].requirementType == t
  {
    if rs != [] {
      var init := rs[..|rs| - 1];
      CountTypeAllIff(init, t);
      if CountType(rs, t) == |rs| {
        forall k | 0 <= k < |rs| ensures rs[k].requirementType == t {
          if k < |rs| - 1 {
            assert rs[k] == init[k];
          }
        }
      } else if CountType(init, t) != |init| {
        var k :| 0 <= k < |init| && init[k].requirementType != t;
        assert rs[k] == init[k];
      }
    }
  }

  /**
   * Each requirement is counted once: under its known type or as
   * unclassified. So the three totals never exceed the number of
   * requirements, and reach it exactly when every type is a known one.
   */
  lemma {:induction false} CountsPartition(rs: seq<Requirement>)
    ensures CountType(rs, "mandatory") + CountType(rs, "recommended") + CountType(rs, "prohibited")
            + CountUnclassified(rs) == |rs|
  {
    if rs != [] {
      CountsPartition(rs[..|rs| - 1]);
    }
  }

  /** Counting reads only the types: lists with the same types have the same counts. */
  lemma {:induction false} CountTypeSameTypes(a: seq<Requirement>, b: seq<Requirement>, t: string)
    requires |a| == |b|
    requires forall k :: 0 <= k < |a| ==> a[k].requirementType == b[k].requirementType
    ensures CountType(a, t) == CountType(b, t)
  {
    if a != [] {
      CountTypeSameTypes(a[..|a| - 1], b[..|b| - 1], t);
    }
  }

  /** `PolicyRequirements`: the requirements of one policy with summary metadata. */
  class PolicyRequirements {
    var policyId: string
    var policyTitle: string
    var policyType: string
    var policyVersion: Option<string>
    var effectiveDate: Option<string>
    var requirements: seq<Requirement>
    var totalMandatory: int
    var totalRecommended: int
    var totalProhibited: int
    var extractionTimestamp: Option<string>
    var modelUsed: Option<string>
    var extractionNotes: seq<string>

    /** Every field, as a value. */
    function Snapshot(): Record
      reads this
    {
      Record(policyId, policyTitle, policyType, policyVersion, effectiveDate, requirements,
             totalMandatory, totalRecommended, totalProhibited, extractionTimestamp, modelUsed,
             extractionNotes)
    }

    /** The three totals agree with the requirements list. */
    predicate Counted()
      reads this
    {
      totalMandatory == CountType(requirements, "mandatory")
      && totalRecommended == CountType(requirements, "recommended")
      && totalProhibited == CountType(requirements, "prohibited")
    }

    /** A new object with only the three required fields given; the rest take their defaults. */
    constructor (policyId: string, policyTitle: string, policyType: string)
      ensures Snapshot() == Record(policyId, policyTitle, policyType, None, None, [], 0, 0, 0, None, None, [])
      ensures Counted()
    {
      this.policyId := policyId;
      this.policyTitle := policyTitle;
      this.policyType := policyType;
      policyVersion := None;
      effectiveDate := None;
      requirements := [];
      totalMandatory := 0;
      totalRecommended := 0;
      totalProhibited := 0;
      extractionTimestamp := None;
      modelUsed := None;
      extractionNotes := [];
    }

    /** An object holding the fields of `r`, as a validated model built from parsed output. */
    constructor FromRecord(r: Record)
      ensures Snapshot() == r
    {
      policyId := r.policyId;
      policyTitle := r.policyTitle;
      policyType := r.policyType;
      policyVersion := r.policyVersion;
      effectiveDate := r.effectiveDate;
      requirements := r.requirements;
      totalMandatory := r.totalMandatory;
      totalRecommended := r.totalRecommended;
      totalProhibited := r.totalProhibited;
      extractionTimestamp := r.extractionTimestamp;
      modelUsed := r.modelUsed;
      extractionNotes := r.extractionNotes;
    }

    /** `update_counts()`: recompute the three totals; nothing else changes. */
    method UpdateCounts()
      modifies this
      ensures Counted()
      ensures Snapshot() == old(Snapshot()).(totalMandatory := totalMandatory,
                                             totalRecommended := totalRecommended,
                                             totalProhibited := totalProhibited)
      ensures old(Counted()) ==> Snapshot() == old(Snapshot())
    {
      totalMandatory := CountType(requirements, "mandatory");
      totalRecommended := CountType(requirements, "recommended");
      totalProhibited := CountType(requirements, "prohibited");
    }

    /** The `total_requirements` property. */
    function TotalRequirements(): (n: nat)
      reads this
      ensures Counted() ==> totalMandatory + totalRecommended + totalProhibited <= n
      ensures Counted() ==>
                (totalMandatory + totalRecommended + totalProhibited == n <==> CountUnclassified(requirements) == 0)
    {
      CountsPartition(requirements);
      |requirements|
    }
  }
}
