/**
 * The policy-requirements extractor: the prompt it sends for each policy
 * type, the identifiers it gives requirements that come back without one,
 * and the validation and post-processing around the model call. The call to
 * the language model is a parameter of the extraction: any function from
 * (model, content, prompt) to a parsed record or an error message.
 */
module PolicyExtractor {
  import opened Wrappers
  import opened Text
  import opened PolicySchema

  // ------------------------------------------------------------- identifiers

  /** Python's `format(index, "03d")`: at least three characters, zero-filled after any sign. */
  function Format03(index: int): (r: string)
    ensures |r| >= 3
    ensures index < 0 <==> r[0] == '-'
    ensures index >= 0 ==> AllDigits(r) && DecimalValue(r) == index
  {
    if index < 0 then "-" + ZeroFill(NatToString(-index), 2)
    else
      NatToStringRoundTrip(index);
      ZeroFill(NatToString(index), 3)
  }

  /** `_generate_requirement_id(policy_id, index)`: `POLICY-REQ-###`. */
  function RequirementId(policyId: string, index: int): (r: string)
    ensures |r| >= |policyId| + 8
  {
    policyId + "-REQ-" + Format03(index)
  }

  /**
   * For a non-negative index the suffix after `-REQ-` is a string of at
   * least three digits denoting the index, exactly three below 1000.
   */
  lemma RequirementIdDigits(policyId: string, index: nat)
    ensures var d := Format03(index);
            RequirementId(policyId, index) == policyId + "-REQ-" + d
            && AllDigits(d) && DecimalValue(d) == index && |d| >= 3 && (index < 1000 ==> |d| == 3)
  {
    if index < 1000 {
      NatToStringShort(index);
    }
  }

  /** Below 1000 a number has at most three digits. */
  lemma {:induction false} NatToStringShort(n: nat)
    requires n < 1000
    ensures |NatToString(n)| <= 3
  {
    if n >= 10 {
      NatToStringShort(n / 10);
      if n / 10 >= 10 {
        assert |NatToString(n / 10 / 10)| == 1;
      }
    }
  }

  /** Zero-filled renderings of two numbers are equal only for equal numbers. */
  lemma ZeroFilledInjective(m: nat, n: nat, width: nat)
    requires ZeroFill(NatToString(m), width) == ZeroFill(NatToString(n), width)
    ensures m == n
  {
    NatToStringRoundTrip(m);
    NatToStringRoundTrip(n);
  }

  /** A negative index is a minus sign before its zero-filled magnitude. */
  lemma Format03Negative(i: int)
    requires i < 0
    ensures Format03(i) == "-" + ZeroFill(NatToString(-i), 2)
  {
  }

  /** After its sign, a negative index's rendering is a digit string worth its magnitude. */
  lemma Format03NegativeMagnitude(i: int)
    requires i < 0
    ensures AllDigits(Format03(i)[1..]) && DecimalValue(Format03(i)[1..]) == -i
  {
    var d := ZeroFill(NatToString(-i), 2);
    Format03Negative(i);
    assert Format03(i)[1..] == d;
    NatToStringRoundTrip(-i);
  }

  /** Two negative indices with the same rendering are equal. */
  lemma Format03NegativeInjective(i: int, j: int)
    requires i < 0 && j < 0 && Format03(i) == Format03(j)
    ensures i == j
  {
    Format03NegativeMagnitude(i);
    Format03NegativeMagnitude(j);
  }

  /** Two non-negative indices with the same rendering are equal. */
  lemma Format03NaturalInjective(i: int, j: int)
    requires i >= 0 && j >= 0 && Format03(i) == Format03(j)
    ensures i == j
  {
    assert DecimalValue(Format03(i)) == i;
  }

  /** Different indices are formatted differently. */
  lemma Format03Injective(i: int, j: int)
    requires Format03(i) == Format03(j)
    ensures i == j
  {
    if i < 0 && j < 0 {
      Format03NegativeInjective(i, j);
    } else if i >= 0 && j >= 0 {
      Format03NaturalInjective(i, j);
    }
  }

  /** Different positions give different identifiers within one policy. */
  lemma RequirementIdInjective(policyId: string, i: int, j: int)
    requires RequirementId(policyId, i) == RequirementId(policyId, j)
    ensures i == j
  {
    ConcatCancel(policyId + "-REQ-", Format03(i), Format03(j));
    Format03Injective(i, j);
  }

  /** Distinct positions give distinct identifiers. */
  lemma RequirementIdDistinct(policyId: string, i: int, j: int)
    requires i != j
    ensures RequirementId(policyId, i) != RequirementId(policyId, j)
  {
    if RequirementId(policyId, i) == RequirementId(policyId, j) {
      RequirementIdInjective(policyId, i, j);
    }
  }

  /** The identifiers the source's tests expect. */
  lemma RequirementIdExamples()
    ensures RequirementId("FIN-001", 1) == "FIN-001-REQ-001"
    ensures RequirementId("IT-042", 5) == "IT-042-REQ-005"
    ensures RequirementId("HR-100", 99) == "HR-100-REQ-099"
    ensures RequirementId("LEG-001", 100) == "LEG-001-REQ-100"
  {
    assert NatToString(99) == "99";
    assert NatToString(100) == "100";
  }

  // ------------------------------------------------------------------ prompt

  /** The first line of every prompt, naming the policy type. */
  function Opening(policyType: string): string
  {
    "Extract ALL requirements from this " + policyType + " policy document.\n"
  }

  /** Line `i` of the base prompt: the opening line, then the instructions shared by every type. */
  function BaseLine(policyType: string, i: nat): string
    requires i < 19
  {
    if i == 0 then Opening(policyType) else InstructionLine(i)
  }

  /** Instruction line `i` (1 to 18) of the base prompt. */
  function InstructionLine(i: nat): string
    requires 1 <= i < 19
  {
    if i == 1 then "\n"
    else if i == 2 then "A requirement is any statement that:\n"
    else if i == 3 then "- Uses obligation language: \"must\", \"shall\", \"will\", \"required to\", \"should\", \"recommended\", \"prohibited\"\n"
    else if i == 4 then "- Specifies an action, restriction, or recommendation\n"
    else if i == 5 then "- Has a clear subject (who/what it applies to)\n"
    else if i == 6 then "\n"
    else if i == 7 then "For each requirement:\n"
    else if i == 8 then "1. Extract the exact statement (or paraphrase if needed for clarity)\n"
    else if i == 9 then "2. Classify as:\n"
    else if i == 10 then "   - \"mandatory\" for must/shall/will/required to\n"
    else if i == 11 then "   - \"recommended\" for should/recommended/encouraged\n"
    else if i == 12 then "   - \"prohibited\" for must not/shall not/prohibited/forbidden\n"
    else if i == 13 then "3. Identify who/what it applies to (roles, departments, systems, employees)\n"
    else if i == 14 then "4. Note any conditions (\"when X happens\", \"if Y exceeds threshold\")\n"
    else if i == 15 then "5. Note any exceptions (\"except for Z\", \"unless A\")\n"
    else if i == 16 then "6. If mentioned, capture regulatory basis (SOX, GDPR, PCI-DSS, HIPAA, etc.)\n"
    else if i == 17 then "\n"
    else "Be thorough - include all requirements, even minor ones.\n"
  }

  /**
   * The base prompt from line `i` on. The text is rendered line by line,
   * through `BaseThen`, so that its wording is unfolded only where a proof
   * asks for it.
   */
  function BaseFrom(policyType: string, i: nat): string
    requires i <= 19
    decreases 19 - i, 1
  {
    if i == 19 then "" else BaseThen(policyType, i)
  }

  /** Line `i`, then the lines after it. */
  function BaseThen(policyType: string, i: nat): string
    requires i < 19
    decreases 19 - i, 0
  {
    BaseLine(policyType, i) + BaseFrom(policyType, i + 1)
  }

  /** The base prompt: the opening line naming the type, then the shared instructions. */
  function BasePrompt(policyType: string): string
  {
    BaseFrom(policyType, 0)
  }

  /** The base prompt opens with the line naming the type. */
  lemma BasePromptOpening(policyType: string)
    ensures StartsWith(BasePrompt(policyType), Opening(policyType))
  {
    var o := Opening(policyType);
    assert BasePrompt(policyType) == o + BaseFrom(policyType, 1);
    assert (o + BaseFrom(policyType, 1))[..|o|] == o;
  }

  /** The five policy types that have domain guidance. */
  predicate IsKnownType(policyType: string) {
    policyType == "Financial" || policyType == "IT Security" || policyType == "HR"
    || policyType == "Legal" || policyType == "Compliance"
  }

  /** Guidance item `i` (of four) for a known policy type. */
  function GuidanceLine(policyType: string, i: nat): string
    requires IsKnownType(policyType) && i < 4
  {
    if policyType == "Financial" then
      if i == 0 then "- Approval thresholds and authorization levels\n"
      else if i == 1 then "- Spending limits and budget controls\n"
      else if i == 2 then "- Financial reporting requirements\n"
      else "- Audit and documentation requirements\n"
    else if policyType == "IT Security" then
      if i == 0 then "- Access controls and authentication requirements\n"
      else if i == 1 then "- Technical controls (encryption, logging, monitoring)\n"
      else if i == 2 then "- Incident response procedures\n"
      else "- System configuration requirements\n"
    else if policyType == "HR" then
      if i == 0 then "- Employee obligations and conduct\n"
      else if i == 1 then "- Performance criteria and expectations\n"
      else if i == 2 then "- Leave and absence requirements\n"
      else "- Grievance and disciplinary procedures\n"
    else if policyType == "Legal" then
      if i == 0 then "- Regulatory obligations and citations\n"
      else if i == 1 then "- Disclosure requirements\n"
      else if i == 2 then "- Compliance deadlines\n"
      else "- Risk statements and prohibitions\n"
    else
      if i == 0 then "- Regulatory framework references\n"
      else if i == 1 then "- Monitoring and reporting requirements\n"
      else if i == 2 then "- Audit and verification procedures\n"
      else "- Certification requirements\n"
  }

  /** The guidance items of a known type from item `i` on, rendered like the instructions. */
  function GuidanceFrom(policyType: string, i: nat): string
    requires IsKnownType(policyType) && i <= 4
    decreases 4 - i, 1
  {
    if i == 4 then "" else GuidanceThen(policyType, i)
  }

  /** Item `i`, then the items after it. */
  function GuidanceThen(policyType: string, i: nat): string
    requires IsKnownType(policyType) && i < 4
    decreases 4 - i, 0
  {
    GuidanceLine(policyType, i) + GuidanceFrom(policyType, i + 1)
  }

  /**
   * `domain_guidance.get(policy_type, "")`: a heading and four items for a
   * known type, else nothing. Guidance exists exactly for the known types,
   * and always opens with the same heading.
   */
  function DomainGuidance(policyType: string): (r: string)
    ensures r != [] <==> IsKnownType(policyType)
    ensures IsKnownType(policyType) ==> StartsWith(r, "\nPay special attention to:\n")
  {
    var heading := "\nPay special attention to:\n";
    if IsKnownType(policyType) then
      assert (heading + GuidanceFrom(policyType, 0))[..|heading|] == heading;
      heading + GuidanceFrom(policyType, 0)
    else ""
  }

  /**
   * `_build_extraction_prompt(policy_type)`: the base prompt followed by the
   * type's guidance. Every prompt starts with the base prompt, and is the
   * base prompt alone exactly for an unknown type.
   */
  function BuildExtractionPrompt(policyType: string): (r: string)
    ensures StartsWith(r, BasePrompt(policyType))
    ensures r == BasePrompt(policyType) <==> !IsKnownType(policyType)
  {
    var r := BasePrompt(policyType) + DomainGuidance(policyType);
    assert r[..|BasePrompt(policyType)|] == BasePrompt(policyType);
    assert |r| == |BasePrompt(policyType)| ==> DomainGuidance(policyType) == [];
    r
  }

  /**
   * Every prompt opens with a line naming the policy type, and so contains
   * it; a known type gets its guidance right after the base prompt.
   */
  lemma BuildExtractionPromptShape(policyType: string)
    ensures var r := BuildExtractionPrompt(policyType);
            StartsWith(r, Opening(policyType))
            && Contains(r, policyType)
            && (IsKnownType(policyType) ==>
                  |r| > |BasePrompt(policyType)| && r[|BasePrompt(policyType)|..] == DomainGuidance(policyType))
  {
    var head := "Extract ALL requirements from this ";
    var opening := Opening(policyType);
    var base := BasePrompt(policyType);
    var r := BuildExtractionPrompt(policyType);
    BasePromptOpening(policyType);
    StartsWithOccurs(base, opening);
    OccursInPrefix(r, base, opening, 0);
    MiddleOccurs(head, policyType, " policy document.\n");
    OccursInPrefix(r, opening, policyType, |head|);
    if IsKnownType(policyType) {
      assert r == base + DomainGuidance(policyType);
      assert r[|base|..] == DomainGuidance(policyType);
    }
  }

  // -------------------------------------------------------------- extraction

  /** Why `extract` raises. */
  datatype ExtractError =
    | MissingMetadata(missing: seq<string>)
    | FileNotFound
    | ExtractionFailed(message: string)

  /** The required names absent from the metadata, in the order `policy_id`, `policy_title`, `policy_type`. */
  function MissingFields(metadata: map<string, string>): (m: seq<string>)
    ensures forall f :: f in m <==> (f == "policy_id" || f == "policy_title" || f == "policy_type") && f !in metadata
    ensures m == [] <==> "policy_id" in metadata && "policy_title" in metadata && "policy_type" in metadata
  {
    (if "policy_id" in metadata then [] else ["policy_id"])
    + (if "policy_title" in metadata then [] else ["policy_title"])
    + (if "policy_type" in metadata then [] else ["policy_type"])
  }

  /** One requirement after post-processing: an id from its 1-based position if it had none, and the policy id. */
  function Assigned(req: Requirement, policyId: string, position: int): Requirement
  {
    req.(requirementId := if req.requirementId == "" then RequirementId(policyId, position) else req.requirementId,
         sourcePolicyId := policyId)
  }

  /** The post-processing loop over all requirements. */
  function AssignIds(rs: seq<Requirement>, policyId: string): (r: seq<Requirement>)
    ensures |r| == |rs|
  {
    seq(|rs|, i requires 0 <= i < |rs| => Assigned(rs[i], policyId, i + 1))
  }

  /**
   * After post-processing every requirement names the policy and has a
   * non-empty id: its own if it had one, otherwise the id for its position.
   * Nothing else about a requirement changes.
   */
  lemma AssignIdsMeaning(rs: seq<Requirement>, policyId: string, i: nat)
    requires i < |rs|
    ensures var a := AssignIds(rs, policyId)[i];
            a.sourcePolicyId == policyId
            && a.requirementId != ""
            && (rs[i].requirementId != "" ==> a.requirementId == rs[i].requirementId)
            && (rs[i].requirementId == "" ==> a.requirementId == RequirementId(policyId, i + 1))
            && a.(requirementId := rs[i].requirementId, sourcePolicyId := rs[i].sourcePolicyId) == rs[i]
  {
  }

  /** Generated identifiers never collide with each other. */
  lemma AssignIdsGeneratedDistinct(rs: seq<Requirement>, policyId: string, i: nat, j: nat)
    requires i < |rs| && j < |rs| && i != j
    requires rs[i].requirementId == "" && rs[j].requirementId == ""
    ensures AssignIds(rs, policyId)[i].requirementId != AssignIds(rs, policyId)[j].requirementId
  {
    AssignIdsMeaning(rs, policyId, i);
    AssignIdsMeaning(rs, policyId, j);
    RequirementIdDistinct(policyId, i + 1, j + 1);
  }

  /** Running the post-processing twice changes nothing more. */
  lemma AssignIdsIdempotent(rs: seq<Requirement>, policyId: string)
    ensures AssignIds(AssignIds(rs, policyId), policyId) == AssignIds(rs, policyId)
  {
    var once := AssignIds(rs, policyId);
    forall i | 0 <= i < |rs| ensures AssignIds(once, policyId)[i] == once[i] {
      AssignIdsMeaning(rs, policyId, i);
    }
  }

  /** Post-processing keeps every requirement type, so it keeps every count. */
  lemma AssignIdsKeepsCounts(rs: seq<Requirement>, policyId: string, t: string)
    ensures CountType(AssignIds(rs, policyId), t) == CountType(rs, t)
  {
    CountTypeSameTypes(AssignIds(rs, policyId), rs, t);
  }

  /** The model the Gemini extractor calls: `model_name or DEFAULT_MODEL`. */
  function GeminiModel(modelName: Option<string>, defaultModel: string): (m: string)
    ensures modelName.Some? && modelName.value != "" ==> m == modelName.value
    ensures modelName.None? || modelName.value == "" ==> m == defaultModel
  {
    if modelName.Some? && modelName.value != "" then modelName.value else defaultModel
  }

  /** The `model_used` that `extract` records, as written: the extractor's own `model_name`. */
  function RecordedModelAsWritten(modelName: Option<string>, defaultModel: string): Option<string>
  {
    modelName
  }

  /** As written, an extractor built with no model name records no model although one was called. */
  lemma RecordedModelAsWrittenMismatch(defaultModel: string)
    ensures RecordedModelAsWritten(None, defaultModel) != Some(GeminiModel(None, defaultModel))
  {
  }

  /** The `model_used` that was evidently intended: the model that was in fact called. */
  function RecordedModel(modelName: Option<string>, defaultModel: string): (m: Option<string>)
    ensures m == Some(GeminiModel(modelName, defaultModel))
    ensures modelName.Some? && modelName.value != "" ==> m == RecordedModelAsWritten(modelName, defaultModel)
  {
    Some(GeminiModel(modelName, defaultModel))
  }

  /** What the language-model call returns: the parsed record, or the message of the error it raised. */
  type Oracle = (string, string, string) -> Result<Record, string>

  /**
   * What `extract` does with the parsed record: post-process the
   * requirements, recount them, and stamp the time and the model.
   */
  function PostProcess(r: Record, policyId: string, now: string, model: Option<string>): (out: Record)
    ensures |out.requirements| == |r.requirements|
    ensures out.totalMandatory == CountType(r.requirements, "mandatory")
    ensures out.totalRecommended == CountType(r.requirements, "recommended")
    ensures out.totalProhibited == CountType(r.requirements, "prohibited")
    ensures out.totalMandatory + out.totalRecommended + out.totalProhibited <= |out.requirements|
    ensures out.extractionTimestamp == Some(now) && out.modelUsed == model
  {
    var rs := AssignIds(r.requirements, policyId);
    AssignIdsKeepsCounts(r.requirements, policyId, "mandatory");
    AssignIdsKeepsCounts(r.requirements, policyId, "recommended");
    AssignIdsKeepsCounts(r.requirements, policyId, "prohibited");
    CountsPartition(rs);
    r.(requirements := rs,
       totalMandatory := CountType(rs, "mandatory"),
       totalRecommended := CountType(rs, "recommended"),
       totalProhibited := CountType(rs, "prohibited"),
       extractionTimestamp := Some(now),
       modelUsed := model)
  }

  /**
   * The post-processed record keeps the model's header fields and notes,
   * and each of its requirements names the policy with a non-empty id and
   * keeps its type.
   */
  lemma PostProcessMeaning(r: Record, policyId: string, now: string, model: Option<string>)
    ensures var out := PostProcess(r, policyId, now, model);
            (forall i :: 0 <= i < |out.requirements| ==>
                  out.requirements[i].sourcePolicyId == policyId
                  && out.requirements[i].requirementId != ""
                  && out.requirements[i].requirementType == r.requirements[i].requirementType)
            && out.(requirements := r.requirements, totalMandatory := r.totalMandatory,
                    totalRecommended := r.totalRecommended, totalProhibited := r.totalProhibited,
                    extractionTimestamp := r.extractionTimestamp, modelUsed := r.modelUsed) == r
  {
    var rs := AssignIds(r.requirements, policyId);
    forall i | 0 <= i < |rs| ensures rs[i].requirementId != "" {
      AssignIdsMeaning(r.requirements, policyId, i);
    }
  }

  /** Post-processing an already post-processed record changes nothing. */
  lemma PostProcessIdempotent(r: Record, policyId: string, now: string, model: Option<string>)
    ensures PostProcess(PostProcess(r, policyId, now, model), policyId, now, model)
            == PostProcess(r, policyId, now, model)
  {
    AssignIdsIdempotent(r.requirements, policyId);
  }

  /** The answer of the model call that `extract` makes for this metadata and document. */
  function Response(modelName: Option<string>, defaultModel: string, markdown: string,
                    metadata: map<string, string>, llm: Oracle): Result<Record, string>
    requires "policy_type" in metadata
  {
    llm(GeminiModel(modelName, defaultModel), markdown, BuildExtractionPrompt(metadata["policy_type"]))
  }

  /**
   * The result of `extract`, as a value: it fails exactly when a required
   * name is missing, the file is missing or the model call fails, in that
   * order of precedence.
   */
  function ExtractSpec(modelName: Option<string>, defaultModel: string, markdown: Option<string>,
                       metadata: map<string, string>, llm: Oracle, now: string): (res: Result<Record, ExtractError>)
    ensures MissingFields(metadata) != [] ==> res == Failure(MissingMetadata(MissingFields(metadata)))
    ensures MissingFields(metadata) == [] && markdown.None? ==> res == Failure(FileNotFound)
    ensures res.Success? <==> MissingFields(metadata) == [] && markdown.Some?
                              && Response(modelName, defaultModel, markdown.value, metadata, llm).Success?
    ensures res.Failure? && res.error.ExtractionFailed? ==>
              MissingFields(metadata) == [] && markdown.Some?
              && Response(modelName, defaultModel, markdown.value, metadata, llm)
                 == Failure(res.error.message)
  {
    if MissingFields(metadata) != [] then Failure(MissingMetadata(MissingFields(metadata)))
    else if markdown.None? then Failure(FileNotFound)
    else
      match Response(modelName, defaultModel, markdown.value, metadata, llm)
      case Failure(e) => Failure(ExtractionFailed(e))
      case Success(r) => Success(PostProcess(r, metadata["policy_id"], now, RecordedModelAsWritten(modelName, defaultModel)))
  }

  /**
   * A successful `extract` returns the post-processed answer, stamped with
   * the extractor's own model name, `None` included. Nothing of the metadata but the policy id
   * reaches the result: the header fields are the model's.
   */
  lemma ExtractSpecMeaning(modelName: Option<string>, defaultModel: string, markdown: Option<string>,
                           metadata: map<string, string>, llm: Oracle, now: string)
    ensures var res := ExtractSpec(modelName, defaultModel, markdown, metadata, llm, now);
            (res.Success? ==>
                  var r := Response(modelName, defaultModel, markdown.value, metadata, llm).value;
                  res.value.policyId == r.policyId && res.value.policyTitle == r.policyTitle
                  && res.value.policyType == r.policyType
                  && res.value.modelUsed == modelName
                  && |res.value.requirements| == |r.requirements|
                  && (forall i :: 0 <= i < |r.requirements| ==> res.value.requirements[i].sourcePolicyId == metadata["policy_id"]))
  {
    var res := ExtractSpec(modelName, defaultModel, markdown, metadata, llm, now);
    if res.Success? {
      var r := Response(modelName, defaultModel, markdown.value, metadata, llm).value;
      PostProcessMeaning(r, metadata["policy_id"], now, RecordedModelAsWritten(modelName, defaultModel));
    }
  }

  /**
   * The post-processing loop of `extract`: every requirement without an id
   * gets the id for its 1-based position, and every requirement gets the
   * policy id. Nothing but the list changes.
   */
  method AssignRequirementIds(requirements: PolicyRequirements, policyId: string)
    modifies requirements
    ensures requirements.Snapshot()
            == old(requirements.Snapshot()).(requirements := AssignIds(old(requirements.requirements), policyId))
  {
    var rs := requirements.requirements;
    var idx := 0;
    while idx < |rs|
      invariant |rs| == |requirements.requirements|
      invariant 0 <= idx <= |rs|
      invariant forall k :: 0 <= k < idx ==> rs[k] == Assigned(requirements.requirements[k], policyId, k + 1)
      invariant forall k :: idx <= k < |rs| ==> rs[k] == requirements.requirements[k]
    {
      rs := rs[idx := Assigned(rs[idx], policyId, idx + 1)];
      idx := idx + 1;
    }
    ghost var spec := AssignIds(requirements.requirements, policyId);
    assert forall k :: 0 <= k < |rs| ==> rs[k] == spec[k];
    requirements.requirements := rs;
  }

  /** `PolicyRequirementsExtractor`: a PDF-to-requirements extractor bound to one model. */
  /** The post-processing steps of `extract`, applied to a new object built from the parsed record. */
  method PostProcessed(r: Record, policyId: string, now: string, model: Option<string>)
    returns (requirements: PolicyRequirements)
    ensures fresh(requirements)
    ensures requirements.Snapshot() == PostProcess(r, policyId, now, model) && requirements.Counted()
  {
    requirements := new PolicyRequirements.FromRecord(r);
    AssignRequirementIds(requirements, policyId);
    assert requirements.requirements == AssignIds(r.requirements, policyId);
    requirements.UpdateCounts();
    requirements.extractionTimestamp := Some(now);
    requirements.modelUsed := model;
  }

  class PolicyRequirementsExtractor {
    /** The `model_name` the extractor was built with. */
    var modelName: Option<string>
    /** The configured `DEFAULT_MODEL`, which the Gemini extractor falls back to. */
    var defaultModel: string

    /** `PolicyRequirementsExtractor()`: the default model name. */
    constructor Default(defaultModel: string)
      ensures modelName == Some("gemini-2.5-flash-lite") && this.defaultModel == defaultModel
    {
      modelName := Some("gemini-2.5-flash-lite");
      this.defaultModel := defaultModel;
    }

    /** `PolicyRequirementsExtractor(model_name=m)`, where `m` may be `None`. */
    constructor (modelName: Option<string>, defaultModel: string)
      ensures this.modelName == modelName && this.defaultModel == defaultModel
    {
      this.modelName := modelName;
      this.defaultModel := defaultModel;
    }

    /**
     * `extract(pdf, metadata)`. `markdown` is the converted document, `None`
     * when the file does not exist; `now` is the UTC timestamp.
     */
    method Extract(markdown: Option<string>, metadata: map<string, string>, llm: Oracle, now: string)
      returns (result: Result<PolicyRequirements, ExtractError>)
      ensures result.Failure? ==> ExtractSpec(modelName, defaultModel, markdown, metadata, llm, now) == Failure(result.error)
      ensures result.Success? ==>
                fresh(result.value)
                && ExtractSpec(modelName, defaultModel, markdown, metadata, llm, now) == Success(result.value.Snapshot())
                && result.value.Counted()
    {
      var missing := MissingFields(metadata);
      if missing != [] {
        return Failure(MissingMetadata(missing));
      }
      var policyId := metadata["policy_id"];
      if markdown.None? {
        return Failure(FileNotFound);
      }
      var prompt := BuildExtractionPrompt(metadata["policy_type"]);
      var response := llm(GeminiModel(modelName, defaultModel), markdown.value, prompt);
      assert response == Response(modelName, defaultModel, markdown.value, metadata, llm);
      if response.Failure? {
        return Failure(ExtractionFailed(response.error));
      }
      var requirements := PostProcessed(response.value, policyId, now, RecordedModelAsWritten(modelName, defaultModel));
      return Success(requirements);
    }
  }
}
