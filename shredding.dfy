/**
 * Rule-driven shredding of one nested extraction record into atomic fact
 * rows (section "2. Store Fact Items" of `StarSchemaStorage.store_entity`).
 * The rule table is `_get_shredding_rules`; `Shred` is the specification and
 * `ShredDocument` the nested loops that build `items_to_insert`.
 */
module Shredding {
  import opened Wrappers
  import opened Text
  import opened JsonValue
  import opened Sha256
  import opened Hashing

  /** One entry of the rule table: which list key to shred and how. */
  datatype Rule = Rule(
    listKey: string,
    itemType: string,
    contentField: string,
    idField: Option<string>,
    locationField: Option<string>)

  /** `_get_shredding_rules()`, in the dictionary's insertion order. */
  function ShreddingRules(): (rules: seq<Rule>)
    ensures |rules| == 5
    ensures forall j, j' :: 0 <= j < j' < |rules| ==> rules[j].listKey != rules[j'].listKey
  {
    [ Rule("requirements", "requirement", "statement", Some("requirement_id"), Some("source_section")),
      Rule("sections", "section", "content", Some("heading"), Some("heading")),
      Rule("agenda_items", "agenda_item", "title", Some("number"), Some("number")),
      Rule("votes", "vote", "motion", Some("motion"), Some("result")),
      Rule("public_comments", "public_comment", "text", None, None) ]
  }

  /** `k in shredding_rules`. */
  predicate IsRuleKey(k: string) {
    exists j :: 0 <= j < |ShreddingRules()| && ShreddingRules()[j].listKey == k
  }

  lemma RuleKeysExactly(k: string)
    ensures IsRuleKey(k) <==> k in {"requirements", "sections", "agenda_items", "votes", "public_comments"}
  {
    var rules := ShreddingRules();
    if k in {"requirements", "sections", "agenda_items", "votes", "public_comments"} {
      if k == "requirements" { assert rules[0].listKey == k; }
      else if k == "sections" { assert rules[1].listKey == k; }
      else if k == "agenda_items" { assert rules[2].listKey == k; }
      else if k == "votes" { assert rules[3].listKey == k; }
      else { assert rules[4].listKey == k; }
    }
  }

  const EmbeddingDimension: nat := 768

  /** `[0.0] * 768`. */
  function PlaceholderEmbedding(): (e: seq<real>)
    ensures |e| == EmbeddingDimension
    ensures forall k :: 0 <= k < |e| ==> e[k] == 0.0
  {
    seq(EmbeddingDimension, _ => 0.0)
  }

  /** One row of `items_to_insert`, i.e. of `fact_items`. */
  datatype FactRow = FactRow(
    itemId: string,
    docId: string,
    domain: Value,
    itemType: string,
    content: Value,
    embedding: seq<real>,
    properties: Dict,
    location: Value)

  /** What the shredding loop raises on a malformed element. */
  datatype ShredError =
    | ElementHasNoGet(listKey: string, index: nat)       // AttributeError: `item.get` on a non-dict, non-string element
    | CannotAppendDescription(listKey: string, index: nat) // TypeError: `content += " ..."` on a non-string, non-list content

  /** `f"{list_key}_{i}"`. */
  function PositionalSeed(listKey: string, i: nat): string {
    listKey + "_" + NatToString(i)
  }

  /** `structured_data.get("policy_type", source_type)`. */
  function Domain(sd: Dict, sourceType: string): Value {
    Get(sd, "policy_type", Str(sourceType))
  }

  /** `"description" in item and item["description"]`. */
  predicate HasDescription(item: Dict) {
    "description" in item && Truthy(item["description"])
  }

  /**
   * Python's `content += suffix`: string concatenation for a string, list
   * extension by the characters of `suffix` for a list, a TypeError otherwise.
   */
  function AppendText(content: Value, suffix: string): Option<Value> {
    match content
    case Str(s) => Some(Str(s + suffix))
    case Arr(xs) => Some(Arr(xs + seq(|suffix|, k requires 0 <= k < |suffix| => Str([suffix[k]]))))
    case _ => None
  }

  /** The content text of a dict element, or None when `+=` raises. */
  function ItemContent(rule: Rule, item: Dict): (r: Option<Value>)
    ensures !HasDescription(item) ==> r == Some(Get(item, rule.contentField, Str("")))
    ensures HasDescription(item) && Get(item, rule.contentField, Str("")).Str? ==>
              r == Some(Str(Get(item, rule.contentField, Str("")).s + (" " + PyStr(item["description"]))))
    ensures r.None? <==> HasDescription(item) && !Get(item, rule.contentField, Str("")).Str?
                                              && !Get(item, rule.contentField, Str("")).Arr?
  {
    var content := Get(item, rule.contentField, Str(""));
    if HasDescription(item) then AppendText(content, " " + PyStr(item["description"])) else Some(content)
  }

  /** The id seed of a dict element before `str()`: the id field when truthy, else positional. */
  function ItemSeed(rule: Rule, item: Dict, i: nat): (seed: Value)
    ensures Truthy(seed)
  {
    var s := if rule.idField.Some? then Get(item, rule.idField.value, Null) else Null;
    if Truthy(s) then s else Str(PositionalSeed(rule.listKey, i))
  }

  /** `item.get(location_field) if location_field else None`. */
  function ItemLocation(rule: Rule, item: Dict): Value {
    if rule.locationField.Some? then Get(item, rule.locationField.value, Null) else Null
  }

  /** An element the loop body can turn into a fact without raising. */
  predicate ElementOk(rule: Rule, element: Value) {
    element.Str?
    || (element.Obj? && (HasDescription(element.fields) ==>
          Get(element.fields, rule.contentField, Str("")).Str? || Get(element.fields, rule.contentField, Str("")).Arr?))
  }

  /** The fact that element `i` of the list under `rule.listKey` becomes. */
  function ElementFact(docId: string, domain: Value, rule: Rule, i: nat, element: Value)
    : (r: Result<FactRow, ShredError>)
    ensures r.Success? <==> ElementOk(rule, element)
    ensures r.Success? ==> r.value.docId == docId && r.value.domain == domain
                           && r.value.itemType == rule.itemType && r.value.embedding == PlaceholderEmbedding()
  {
    match element
    case Str(s) =>
      Success(FactRow(GenerateId([docId, PositionalSeed(rule.listKey, i)]),
                      docId, domain, rule.itemType, element, PlaceholderEmbedding(), map[], Null))
    case Obj(item) =>
      var content := ItemContent(rule, item);
      var c := Get(item, rule.contentField, Str(""));
      assert content.None? <==> HasDescription(item) && !c.Str? && !c.Arr?;
      if content.None? then Failure(CannotAppendDescription(rule.listKey, i))
      else
        var props := map k | k in item && k != rule.contentField :: item[k];
        var seed := ItemSeed(rule, item, i);
        Success(FactRow(GenerateId([docId, PyStr(seed)]), docId, domain, rule.itemType,
                        content.value, PlaceholderEmbedding(), props, ItemLocation(rule, item)))
    case _ => Failure(ElementHasNoGet(rule.listKey, i))
  }

  /** A string element is its own content, with no properties, no location and a positional id seed. */
  lemma StringElementFact(docId: string, domain: Value, rule: Rule, i: nat, s: string)
    ensures ElementFact(docId, domain, rule, i, Str(s))
              == Success(FactRow(GenerateId([docId, PositionalSeed(rule.listKey, i)]),
                                 docId, domain, rule.itemType, Str(s), PlaceholderEmbedding(), map[], Null))
  {
  }

  /**
   * A well-formed dict element keeps every field but the content field as
   * properties, takes its id seed from the id field when truthy and its
   * location from the location field.
   */
  lemma DictElementFact(docId: string, domain: Value, rule: Rule, i: nat, item: Dict)
    requires ElementOk(rule, Obj(item))
    ensures ElementFact(docId, domain, rule, i, Obj(item)).Success?
    ensures var f := ElementFact(docId, domain, rule, i, Obj(item)).value;
            && (forall k :: k in f.properties <==> k in item && k != rule.contentField)
            && (forall k :: k in f.properties ==> f.properties[k] == item[k])
            && f.itemId == GenerateId([docId, PyStr(ItemSeed(rule, item, i))])
            && f.location == ItemLocation(rule, item)
            && Some(f.content) == ItemContent(rule, item)
  {
    var content := Get(item, rule.contentField, Str(""));
    assert ItemContent(rule, item).None? <==> HasDescription(item) && !content.Str? && !content.Arr?;
  }

  /**
   * How the loop body turns element `i` of a rule's list into a row. The
   * shredding loop is stated for any such body, so that its shape is proved
   * once; `FactsOf` is the body `store_entity` uses.
   */
  type FactFn<!E, T> = (Rule, nat, E) -> Result<T, ShredError>

  /** The loop body of `store_entity` for document `docId` in domain `domain`. */
  function FactsOf(docId: string, domain: Value): FactFn<Value, FactRow> {
    (rule: Rule, i: nat, element: Value) => ElementFact(docId, domain, rule, i, element)
  }

  /** The rows of the first `n` elements of one list, stopping at the first element that raises. */
  function ShredList<E, T>(fact: FactFn<E, T>, rule: Rule, xs: seq<E>, n: nat): Result<seq<T>, ShredError>
    requires n <= |xs|
  {
    if n == 0 then Success([])
    else
      match ShredList(fact, rule, xs, n - 1)
      case Failure(e) => Failure(e)
      case Success(fs) =>
        match fact(rule, n - 1, xs[n - 1])
        case Failure(e) => Failure(e)
        case Success(f) => Success(fs + [f])
  }

  /** The rows of the first `m` rules, rule `j` shredding `lists[j]`, in table order. */
  function ShredRules<E, T>(fact: FactFn<E, T>, rules: seq<Rule>, lists: seq<seq<E>>, m: nat)
    : Result<seq<T>, ShredError>
    requires m <= |rules| == |lists|
  {
    if m == 0 then Success([])
    else
      match ShredRules(fact, rules, lists, m - 1)
      case Failure(e) => Failure(e)
      case Success(fs) =>
        match ShredList(fact, rules[m - 1], lists[m - 1], |lists[m - 1]|)
        case Failure(e) => Failure(e)
        case Success(gs) => Success(fs + gs)
  }

  /** The list shredded under `rule`: its value when it is a list, else nothing. */
  function ListOf(sd: Dict, rule: Rule): seq<Value> {
    if rule.listKey in sd && sd[rule.listKey].Arr? then sd[rule.listKey].items else []
  }

  /** The list each rule of `rules` shreds. */
  function ListsOf(sd: Dict, rules: seq<Rule>): (lists: seq<seq<Value>>)
    ensures |lists| == |rules|
    ensures forall j :: 0 <= j < |rules| ==> lists[j] == ListOf(sd, rules[j])
  {
    seq(|rules|, j requires 0 <= j < |rules| => ListOf(sd, rules[j]))
  }

  /** Every fact row that storing `sd` under `docId` inserts, or the error the loop raises. */
  function Shred(docId: string, sourceType: string, sd: Dict): Result<seq<FactRow>, ShredError> {
    var rules := ShreddingRules();
    ShredRules(FactsOf(docId, Domain(sd, sourceType)), rules, ListsOf(sd, rules), |rules|)
  }

  // ------------------------------------------------------------- the loop

  /**
   * The shredding part of `store_entity`: the domain is read from the
   * record, then the nested loops run with the loop body of this document.
   */
  method ShredDocument(docId: string, sourceType: string, sd: Dict) returns (r: Result<seq<FactRow>, ShredError>)
    ensures r == Shred(docId, sourceType, sd)
  {
    var domain := Get(sd, "policy_type", Str(sourceType));
    r := ShredRecord(FactsOf(docId, domain), sd, ShreddingRules());
  }

  /**
   * The nested `for` loops that fill `items_to_insert`, over the rule table
   * `rules`, with `fact` as the loop body.
   */
  method ShredRecord<T>(fact: FactFn<Value, T>, sd: Dict, rules: seq<Rule>) returns (r: Result<seq<T>, ShredError>)
    ensures r == ShredRules(fact, rules, ListsOf(sd, rules), |rules|)
  {
    ghost var lists := ListsOf(sd, rules);
    var items: seq<T> := [];
    var j := 0;
    while j < |rules|
      invariant 0 <= j <= |rules|
      invariant ShredRules(fact, rules, lists, j) == Success(items)
    {
      var rule := rules[j];
      var listFacts: seq<T> := [];
      if rule.listKey in sd && sd[rule.listKey].Arr? {
        var shredded := ShredElements(fact, rule, sd[rule.listKey].items);
        assert lists[j] == sd[rule.listKey].items;
        if shredded.Failure? {
          ShredRulesFailurePersists(fact, rules, lists, j + 1, |rules|);
          return Failure(shredded.error);
        }
        listFacts := shredded.value;
      } else {
        assert lists[j] == [];
      }
      ShredRulesStep(fact, rules, lists, j, items, listFacts);
      items := items + listFacts;
      j := j + 1;
    }
    r := Success(items);
  }

  /** The inner `for i, item in enumerate(items_list)` loop over one rule's list. */
  method ShredElements<E, T>(fact: FactFn<E, T>, rule: Rule, xs: seq<E>) returns (r: Result<seq<T>, ShredError>)
    ensures r == ShredList(fact, rule, xs, |xs|)
  {
    var listFacts: seq<T> := [];
    var i := 0;
    while i < |xs|
      invariant 0 <= i <= |xs|
      invariant ShredList(fact, rule, xs, i) == Success(listFacts)
    {
      var row := fact(rule, i, xs[i]);
      ShredListStep(fact, rule, xs, i, listFacts);
      if row.Failure? {
        ShredListFailurePersists(fact, rule, xs, i + 1, |xs|);
        return Failure(row.error);
      }
      listFacts := listFacts + [row.value];
      i := i + 1;
    }
    r := Success(listFacts);
  }

  /** One more element appends its row, or ends the list with its error. */
  lemma ShredListStep<E, T>(fact: FactFn<E, T>, rule: Rule, xs: seq<E>, i: nat, fs: seq<T>)
    requires i < |xs| && ShredList(fact, rule, xs, i) == Success(fs)
    ensures fact(rule, i, xs[i]).Failure? ==> ShredList(fact, rule, xs, i + 1) == Failure(fact(rule, i, xs[i]).error)
    ensures fact(rule, i, xs[i]).Success? ==> ShredList(fact, rule, xs, i + 1) == Success(fs + [fact(rule, i, xs[i]).value])
  {
  }

  /** One more rule appends its list's rows. */
  lemma ShredRulesStep<E, T>(fact: FactFn<E, T>, rules: seq<Rule>, lists: seq<seq<E>>, j: nat, fs: seq<T>, gs: seq<T>)
    requires j < |rules| == |lists| && ShredRules(fact, rules, lists, j) == Success(fs)
    requires ShredList(fact, rules[j], lists[j], |lists[j]|) == Success(gs)
    ensures ShredRules(fact, rules, lists, j + 1) == Success(fs + gs)
  {
  }

  lemma {:induction false} ShredListFailurePersists<E, T>(fact: FactFn<E, T>, rule: Rule, xs: seq<E>, n: nat, m: nat)
    requires n <= m <= |xs| && ShredList(fact, rule, xs, n).Failure?
    ensures ShredList(fact, rule, xs, m) == ShredList(fact, rule, xs, n)
    decreases m - n
  {
    if n < m {
      ShredListFailurePersists(fact, rule, xs, n, m - 1);
    }
  }

  lemma {:induction false} ShredRulesFailurePersists<E, T>(fact: FactFn<E, T>, rules: seq<Rule>, lists: seq<seq<E>>,
                                                           n: nat, m: nat)
    requires n <= m <= |rules| == |lists| && ShredRules(fact, rules, lists, n).Failure?
    ensures ShredRules(fact, rules, lists, m) == ShredRules(fact, rules, lists, n)
    decreases m - n
  {
    if n < m {
      ShredRulesFailurePersists(fact, rules, lists, n, m - 1);
    }
  }

  // ------------------------------------------------------- shape of a shred

  /** The number of rows the first `j` lists contribute. */
  function Offset<E>(lists: seq<seq<E>>, j: nat): nat
    requires j <= |lists|
  {
    if j == 0 then 0 else Offset(lists, j - 1) + |lists[j - 1]|
  }

  /** The number of elements under all registered list keys whose value is a list. */
  function ElementCount(sd: Dict): nat {
    Offset(ListsOf(sd, ShreddingRules()), |ShreddingRules()|)
  }

  /** Every element of `xs` turns into a row without raising. */
  predicate ListSucceeds<E, T>(fact: FactFn<E, T>, rule: Rule, xs: seq<E>) {
    forall k :: 0 <= k < |xs| ==> fact(rule, k, xs[k]).Success?
  }

  /** `gs` holds, position by position, the rows of the elements of `xs`. */
  ghost predicate ListShredsTo<E, T>(fact: FactFn<E, T>, rule: Rule, xs: seq<E>, gs: seq<T>) {
    |gs| == |xs| && forall k :: 0 <= k < |xs| ==> fact(rule, k, xs[k]) == Success(gs[k])
  }

  /** Every element of the first `m` lists turns into a row without raising. */
  predicate AllSucceed<E, T>(fact: FactFn<E, T>, rules: seq<Rule>, lists: seq<seq<E>>, m: nat)
    requires m <= |rules| == |lists|
  {
    forall j :: 0 <= j < m ==> ListSucceeds(fact, rules[j], lists[j])
  }

  /**
   * `fs` is the rows of list 0, then those of list 1, and so on for the first
   * `m` lists: the slice from `Offset(j)` of length `|lists[j]|` holds the
   * rows of the elements of `lists[j]` in index order.
   */
  ghost predicate LaidOut<E, T>(fact: FactFn<E, T>, rules: seq<Rule>, lists: seq<seq<E>>, m: nat, fs: seq<T>)
    requires m <= |rules| == |lists|
  {
    && |fs| == Offset(lists, m)
    && forall j {:trigger Offset(lists, j)} :: 0 <= j < m ==>
         Offset(lists, j) + |lists[j]| <= |fs|
         && ListShredsTo(fact, rules[j], lists[j], fs[Offset(lists, j)..Offset(lists, j) + |lists[j]|])
  }

  /** One list shreds without error exactly when every element does; then row `k` is element `k`'s. */
  lemma {:induction false} ShredListShape<E, T>(fact: FactFn<E, T>, rule: Rule, xs: seq<E>, n: nat)
    requires n <= |xs|
    ensures ShredList(fact, rule, xs, n).Success? <==> ListSucceeds(fact, rule, xs[..n])
    ensures ShredList(fact, rule, xs, n).Success? ==> ListShredsTo(fact, rule, xs[..n], ShredList(fact, rule, xs, n).value)
  {
    if n > 0 {
      ShredListShape(fact, rule, xs, n - 1);
      assert xs[..n - 1] == xs[..n][..n - 1];
      var prev := ShredList(fact, rule, xs, n - 1);
      if prev.Success? && !fact(rule, n - 1, xs[n - 1]).Success? {
        assert !fact(rule, n - 1, xs[..n][n - 1]).Success?;
      }
    }
  }

  /** `Offset` only grows along the table. */
  lemma OffsetMonotone<E>(lists: seq<seq<E>>, m: nat)
    requires m <= |lists|
    ensures forall j :: 0 <= j <= m ==> Offset(lists, j) <= Offset(lists, m)
  {
  }

  /** The first `m` rules shred without error exactly when all their elements do. */
  lemma {:induction false} ShredRulesSucceeds<E, T>(fact: FactFn<E, T>, rules: seq<Rule>, lists: seq<seq<E>>, m: nat)
    requires m <= |rules| == |lists|
    ensures ShredRules(fact, rules, lists, m).Success? <==> AllSucceed(fact, rules, lists, m)
  {
    if m > 0 {
      ShredRulesSucceeds(fact, rules, lists, m - 1);
      var xs := lists[m - 1];
      ShredListShape(fact, rules[m - 1], xs, |xs|);
      assert xs[..|xs|] == xs;
    }
  }

  /** Appending the rows of list `m - 1` to a layout of the first `m - 1` lists lays out the first `m`. */
  lemma LaidOutAppend<E, T>(fact: FactFn<E, T>, rules: seq<Rule>, lists: seq<seq<E>>, m: nat, fs: seq<T>, gs: seq<T>)
    requires 0 < m <= |rules| == |lists|
    requires LaidOut(fact, rules, lists, m - 1, fs)
    requires ListShredsTo(fact, rules[m - 1], lists[m - 1], gs)
    ensures LaidOut(fact, rules, lists, m, fs + gs)
  {
    OffsetMonotone(lists, m - 1);
    var all := fs + gs;
    forall j {:trigger Offset(lists, j)} | 0 <= j < m
      ensures Offset(lists, j) + |lists[j]| <= |all|
      ensures ListShredsTo(fact, rules[j], lists[j], all[Offset(lists, j)..Offset(lists, j) + |lists[j]|])
    {
      var lo, hi := Offset(lists, j), Offset(lists, j) + |lists[j]|;
      if j < m - 1 {
        assert hi == Offset(lists, j + 1);
        assert all[lo..hi] == fs[lo..hi];
      } else {
        assert all[lo..hi] == gs;
      }
    }
  }

  /** The rows of the first `m` rules are laid out list by list, each list in index order. */
  lemma {:induction false} ShredRulesLaidOut<E, T>(fact: FactFn<E, T>, rules: seq<Rule>, lists: seq<seq<E>>, m: nat)
    requires m <= |rules| == |lists| && ShredRules(fact, rules, lists, m).Success?
    ensures LaidOut(fact, rules, lists, m, ShredRules(fact, rules, lists, m).value)
  {
    if m > 0 {
      var xs := lists[m - 1];
      var prev := ShredRules(fact, rules, lists, m - 1);
      var here := ShredList(fact, rules[m - 1], xs, |xs|);
      assert prev.Success? && here.Success?;
      ShredRulesLaidOut(fact, rules, lists, m - 1);
      ShredListShape(fact, rules[m - 1], xs, |xs|);
      assert xs[..|xs|] == xs;
      LaidOutAppend(fact, rules, lists, m, prev.value, here.value);
    }
  }

  /** All elements of the lists the first `m` rules shred are well formed. */
  predicate AllElementsOk(sd: Dict, rules: seq<Rule>, m: nat)
    requires m <= |rules|
  {
    forall j, k :: 0 <= j < m && 0 <= k < |ListOf(sd, rules[j])| ==> ElementOk(rules[j], ListOf(sd, rules[j])[k])
  }

  /**
   * Shredding coverage, first half: storing a record raises exactly when
   * some element of a registered list is malformed.
   */
  lemma ShredSucceeds(docId: string, sourceType: string, sd: Dict)
    ensures Shred(docId, sourceType, sd).Success? <==> AllElementsOk(sd, ShreddingRules(), |ShreddingRules()|)
  {
    var rules := ShreddingRules();
    var lists := ListsOf(sd, rules);
    var facts := FactsOf(docId, Domain(sd, sourceType));
    ShredRulesSucceeds(facts, rules, lists, |rules|);
    forall j, k | 0 <= j < |rules| && 0 <= k < |lists[j]|
      ensures facts(rules[j], k, lists[j][k]).Success? <==> ElementOk(rules[j], ListOf(sd, rules[j])[k])
    {
      assert facts(rules[j], k, lists[j][k]) == ElementFact(docId, Domain(sd, sourceType), rules[j], k, lists[j][k]);
    }
    assert AllSucceed(facts, rules, lists, |rules|) <==> AllElementsOk(sd, rules, |rules|);
  }

  /**
   * Shredding coverage, second half: a record that shreds yields exactly one
   * fact per element, laid out rule by rule in table order and element by
   * element in index order.
   */
  lemma ShredLayout(docId: string, sourceType: string, sd: Dict)
    requires Shred(docId, sourceType, sd).Success?
    ensures |Shred(docId, sourceType, sd).value| == ElementCount(sd)
    ensures LaidOut(FactsOf(docId, Domain(sd, sourceType)), ShreddingRules(), ListsOf(sd, ShreddingRules()),
                    |ShreddingRules()|, Shred(docId, sourceType, sd).value)
  {
    var rules := ShreddingRules();
    ShredRulesLaidOut(FactsOf(docId, Domain(sd, sourceType)), rules, ListsOf(sd, rules), |rules|);
  }

  /** The columns a fact shares with its document: document, domain, embedding and the item type of rule `r`. */
  predicate HasHeader(r: Rule, f: FactRow, docId: string, domain: Value) {
    f.docId == docId && f.domain == domain && f.embedding == PlaceholderEmbedding() && f.itemType == r.itemType
  }

  /** When every element's row has its rule's header, so has every row of the list. */
  lemma {:induction false} ShredListHeaders(fact: FactFn<Value, FactRow>, rule: Rule, xs: seq<Value>, n: nat,
                                            docId: string, domain: Value)
    requires n <= |xs| && ShredList(fact, rule, xs, n).Success?
    requires forall k :: 0 <= k < n && fact(rule, k, xs[k]).Success? ==> HasHeader(rule, fact(rule, k, xs[k]).value, docId, domain)
    ensures forall f :: f in ShredList(fact, rule, xs, n).value ==> HasHeader(rule, f, docId, domain)
  {
    if n > 0 {
      var prev := ShredList(fact, rule, xs, n - 1);
      assert prev.Success?;
      ShredListHeaders(fact, rule, xs, n - 1, docId, domain);
      ShredListStep(fact, rule, xs, n - 1, prev.value);
    }
  }

  /** When every element's row has its rule's header, every row of the first `m` lists has some rule's header. */
  lemma {:induction false} ShredRulesHeaders(fact: FactFn<Value, FactRow>, rules: seq<Rule>, lists: seq<seq<Value>>,
                                             m: nat, docId: string, domain: Value)
    requires m <= |rules| == |lists| && ShredRules(fact, rules, lists, m).Success?
    requires forall j, k :: 0 <= j < m && 0 <= k < |lists[j]| && fact(rules[j], k, lists[j][k]).Success? ==>
               HasHeader(rules[j], fact(rules[j], k, lists[j][k]).value, docId, domain)
    ensures forall f :: f in ShredRules(fact, rules, lists, m).value ==>
              exists j :: 0 <= j < m && HasHeader(rules[j], f, docId, domain)
  {
    if m > 0 {
      var prev := ShredRules(fact, rules, lists, m - 1);
      assert prev.Success?;
      ShredRulesHeaders(fact, rules, lists, m - 1, docId, domain);
      var here := ShredList(fact, rules[m - 1], lists[m - 1], |lists[m - 1]|);
      assert here.Success?;
      ShredListHeaders(fact, rules[m - 1], lists[m - 1], |lists[m - 1]|, docId, domain);
      ShredRulesStep(fact, rules, lists, m - 1, prev.value, here.value);
      forall f | f in prev.value + here.value
        ensures exists j :: 0 <= j < m && HasHeader(rules[j], f, docId, domain)
      {
        if f in here.value {
          assert HasHeader(rules[m - 1], f, docId, domain);
        }
      }
    }
  }

  /** Every fact of a stored record belongs to the document, carries its domain and names a rule's item type. */
  lemma ShredRowsBelongToDoc(docId: string, sourceType: string, sd: Dict)
    requires Shred(docId, sourceType, sd).Success?
    ensures forall f :: f in Shred(docId, sourceType, sd).value ==>
              f.docId == docId && f.domain == Domain(sd, sourceType) && f.embedding == PlaceholderEmbedding()
              && exists j :: 0 <= j < |ShreddingRules()| && f.itemType == ShreddingRules()[j].itemType
  {
    var rules := ShreddingRules();
    var lists := ListsOf(sd, rules);
    var domain := Domain(sd, sourceType);
    var facts := FactsOf(docId, domain);
    forall j, k | 0 <= j < |rules| && 0 <= k < |lists[j]| && facts(rules[j], k, lists[j][k]).Success?
      ensures HasHeader(rules[j], facts(rules[j], k, lists[j][k]).value, docId, domain)
    {
      assert facts(rules[j], k, lists[j][k]) == ElementFact(docId, domain, rules[j], k, lists[j][k]);
    }
    ShredRulesHeaders(facts, rules, lists, |rules|, docId, domain);
  }

  /** A rule key whose value is not a list contributes no fact. */
  lemma NonListContributesNothing(sd: Dict, rules: seq<Rule>, j: nat)
    requires j < |rules|
    requires rules[j].listKey !in sd || !sd[rules[j].listKey].Arr?
    ensures Offset(ListsOf(sd, rules), j + 1) == Offset(ListsOf(sd, rules), j)
  {
  }
}
