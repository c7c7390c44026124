/**
 * The two dataset generators built on the scanner: each one either keeps
 * the scanned entries or falls back to its fixed default structure stamped
 * with the generation time; the full dataset is then summarised by tallies
 * per policy type and per complexity. The command line picks the datasets.
 */
module MetadataDatasets {
  import opened Wrappers
  import opened Text
  import opened MetadataScan

  // -------------------------------------------------------- the defaults

  /**
   * A default entry at `version`: the common effective date, and a
   * markdown file named after the id.
   */
  predicate DefaultShaped(e: PolicyInfo, version: string) {
    && e.policyVersion == version && e.effectiveDate == "2024-01-15"
    && StartsWith(e.filename, e.policyId + "_") && IsMarkdownName(e.filename)
  }

  /**
   * A default entry, in the file `<id>_<words>.md`: every default has the
   * same effective date.
   */
  function DefaultInfo(id: string, title: string, policyType: string, version: string,
                       words: string, complexity: string): (e: PolicyInfo)
    ensures DefaultShaped(e, version) && e.policyId == id
  {
    var filename := id + "_" + words + ".md";
    assert filename[..|id| + 1] == id + "_";
    PolicyInfo(id, title, policyType, version, "2024-01-15", filename, complexity)
  }

  /**
   * The default structure of the micro dataset: three policies at version
   * 1.0, with distinct ids, each named by a file that begins with its id.
   */
  function MicroDefaults(): (r: seq<PolicyInfo>)
    ensures |r| == 3
    ensures forall i :: 0 <= i < |r| ==> DefaultShaped(r[i], "1.0")
    ensures forall i, j :: 0 <= i < j < |r| ==> r[i].policyId != r[j].policyId
  {
    [ DefaultInfo("FIN-001", "Expense Reimbursement Policy", "Financial", "1.0",
                  "expense_reimbursement", "simple"),
      DefaultInfo("IT-001", "Access Control Policy", "IT Security", "1.0",
                  "access_control", "medium"),
      DefaultInfo("HR-001", "Code of Conduct", "HR", "1.0",
                  "code_of_conduct", "simple") ]
  }

  /** The default structure of the full dataset: thirteen policies at version 1.2. */
  function FullDefaults(): seq<PolicyInfo> {
    [ DefaultInfo("FIN-001", "Expense Reimbursement Policy", "Financial", "1.2",
                  "expense_reimbursement", "simple"),
      DefaultInfo("FIN-002", "Capital Expenditure Approval Policy", "Financial", "1.2",
                  "capital_expenditure", "medium"),
      DefaultInfo("FIN-003", "Financial Authority Matrix and Approval Limits", "Financial", "1.2",
                  "financial_authority_matrix", "complex"),
      DefaultInfo("IT-001", "Acceptable Use Policy", "IT Security", "1.2",
                  "acceptable_use", "simple"),
      DefaultInfo("IT-002", "Access Control and Identity Management Policy", "IT Security", "1.2",
                  "access_control", "medium"),
      DefaultInfo("IT-003", "Information Security and Data Protection Policy", "IT Security", "1.2",
                  "information_security", "complex"),
      DefaultInfo("HR-001", "Code of Conduct", "HR", "1.2",
                  "code_of_conduct", "simple"),
      DefaultInfo("HR-002", "Remote Work and Flexible Work Arrangements", "HR", "1.2",
                  "remote_work", "medium"),
      DefaultInfo("HR-003", "Performance Management and Employee Development", "HR", "1.2",
                  "performance_management", "complex"),
      DefaultInfo("LEG-001", "Conflict of Interest and Disclosure Policy", "Legal", "1.2",
                  "conflict_of_interest", "medium"),
      DefaultInfo("LEG-002", "Records Retention and Document Management Policy", "Legal", "1.2",
                  "records_retention", "complex"),
      DefaultInfo("COMP-001", "Privacy and Data Protection Compliance", "Compliance", "1.2",
                  "privacy_compliance", "medium"),
      DefaultInfo("COMP-002", "Anti-Corruption and Ethical Business Practices", "Compliance", "1.2",
                  "anti_corruption", "complex") ]
  }

  // ------------------------------------------------------- the stamping

  /** The defaults, each given the `generated_at` stamp. */
  function Stamped(infos: seq<PolicyInfo>, now: string): (ps: seq<Policy>)
    ensures |ps| == |infos|
  {
    if infos == [] then [] else Stamped(infos[..|infos| - 1], now) + [Policy(infos[|infos| - 1], Generated(now))]
  }

  /** The fields that every metadata dict shares, in order. */
  function Infos(ps: seq<Policy>): (r: seq<PolicyInfo>)
    ensures |r| == |ps|
  {
    if ps == [] then [] else Infos(ps[..|ps| - 1]) + [ps[|ps| - 1].info]
  }

  /** Stamping adds a stamp and nothing else: the shared fields are the defaults, in order, and every stamp is the generation time. */
  lemma {:induction false} StampedMeaning(infos: seq<PolicyInfo>, now: string)
    ensures Infos(Stamped(infos, now)) == infos
    ensures forall k :: 0 <= k < |infos| ==> Stamped(infos, now)[k].stamp == Generated(now)
  {
    if infos != [] {
      var init := infos[..|infos| - 1];
      StampedMeaning(init, now);
      var ps := Stamped(infos, now);
      assert ps[..|ps| - 1] == Stamped(init, now);
      assert infos == init + [infos[|infos| - 1]];
    }
  }

  /** The loop that adds `generated_at` to each default dict. */
  method AddGeneratedAt(infos: seq<PolicyInfo>, now: string) returns (policies: seq<Policy>)
    ensures policies == Stamped(infos, now)
  {
    policies := [];
    var i := 0;
    while i < |infos|
      invariant 0 <= i <= |infos|
      invariant policies == Stamped(infos[..i], now)
    {
      assert infos[..i + 1][..i] == infos[..i];
      policies := policies + [Policy(infos[i], Generated(now))];
      i := i + 1;
    }
    assert infos[..i] == infos;
  }

  // ------------------------------------------------- scanned or default

  /**
   * The policies of one dataset: the scan of its directory, which the
   * generator has just created, when scanning is asked for and finds
   * something; otherwise the defaults stamped with the generation time.
   */
  function DatasetPolicies(defaults: seq<PolicyInfo>, scanExisting: bool, dir: Directory, now: string): (ps: seq<Policy>)
    ensures defaults != [] ==> ps != []
  {
    var scanned := if scanExisting then ScanSpec(dir.(present := true), now) else [];
    if scanned != [] then scanned else Stamped(defaults, now)
  }

  /** Whether an entry was scanned from a file. */
  predicate IsScanned(p: Policy) {
    p.stamp.Scanned?
  }

  /**
   * The scanned entries are used exactly when scanning is asked for and
   * finds at least one matching file; otherwise the result is the defaults.
   */
  lemma DatasetSource(defaults: seq<PolicyInfo>, scanExisting: bool, dir: Directory, now: string)
    ensures var ps := DatasetPolicies(defaults, scanExisting, dir, now);
            var found := exists f :: f in dir.entries && IsMarkdownName(f.name) && EntryOf(f, now).Some?;
            (scanExisting && found ==> ps == ScanSpec(dir.(present := true), now))
            && (!(scanExisting && found) ==> Infos(ps) == defaults && forall k :: 0 <= k < |ps| ==> !IsScanned(ps[k]))
  {
    var made := dir.(present := true);
    var ps := DatasetPolicies(defaults, scanExisting, dir, now);
    if scanExisting && exists f :: f in dir.entries && IsMarkdownName(f.name) && EntryOf(f, now).Some? {
      var f :| f in dir.entries && IsMarkdownName(f.name) && EntryOf(f, now).Some?;
      ScanMembers(made, now, EntryOf(f, now).value);
    } else {
      StampedMeaning(defaults, now);
      if scanExisting && ScanSpec(made, now) != [] {
        var e := ScanSpec(made, now)[0];
        ScanMembers(made, now, e);
        assert false;
      }
    }
  }

  /** Every scanned entry is stamped as scanned. */
  lemma ScanEntriesScanned(dir: Directory, now: string, e: Policy)
    requires e in ScanSpec(dir, now)
    ensures IsScanned(e)
  {
    ScanMembers(dir, now, e);
  }

  /** The keys of one metadata dict, in insertion order. */
  function Keys(p: Policy): (ks: seq<string>)
    ensures |ks| == 9 || |ks| == 8
  {
    ["policy_id", "policy_title", "policy_type", "policy_version", "effective_date", "filename", "complexity"]
    + match p.stamp
      case Scanned(_, _) => ["file_size", "scanned_at"]
      case Generated(_) => ["generated_at"]
  }

  /**
   * Every row offered to the CSV writer has exactly the keys of the first
   * row, which the writer takes as its columns: a dataset is all scanned or
   * all defaults.
   */
  lemma CsvRowsMatchHeader(defaults: seq<PolicyInfo>, scanExisting: bool, dir: Directory, now: string)
    requires defaults != []
    ensures var ps := DatasetPolicies(defaults, scanExisting, dir, now);
            forall k :: 0 <= k < |ps| ==> Keys(ps[k]) == Keys(ps[0])
  {
    var made := dir.(present := true);
    var ps := DatasetPolicies(defaults, scanExisting, dir, now);
    if scanExisting && ScanSpec(made, now) != [] {
      forall k | 0 <= k < |ps| ensures IsScanned(ps[k]) {
        ScanEntriesScanned(made, now, ps[k]);
      }
    } else {
      StampedMeaning(defaults, now);
    }
  }

  // --------------------------------------------------------- the tallies

  /** The tally dict built by `d[k] = d.get(k, 0) + 1` for each key in turn. */
  function Tally(keys: seq<string>): map<string, nat> {
    if keys == [] then map[]
    else
      var m := Tally(keys[..|keys| - 1]);
      var k := keys[|keys| - 1];
      m[k := (if k in m then m[k] else 0) + 1]
  }

  /** A tally counts every key: its keys are the keys that occur, each mapped to how often it occurs. */
  lemma {:induction false} TallyMeaning(keys: seq<string>)
    ensures Tally(keys).Keys == set k | k in keys
    ensures forall k :: k in Tally(keys) ==> Tally(keys)[k] == multiset(keys)[k]
  {
    if keys != [] {
      var init := keys[..|keys| - 1];
      TallyMeaning(init);
      assert keys == init + [keys[|keys| - 1]];
      assert multiset(keys) == multiset(init) + multiset{keys[|keys| - 1]};
    }
  }

  /** The sum of the values of a map. */
  ghost function MapSum(m: map<string, nat>): nat
    decreases |m|
  {
    if m == map[] then 0
    else
      var k :| k in m;
      m[k] + MapSum(m - {k})
  }

  /** The sum does not depend on which key is taken out first. */
  lemma {:induction false} MapSumRemove(m: map<string, nat>, k: string)
    requires k in m
    ensures MapSum(m) == m[k] + MapSum(m - {k})
    decreases |m|
  {
    var j :| j in m && MapSum(m) == m[j] + MapSum(m - {j});
    if j != k {
      var mj := m - {j};
      var mk := m - {k};
      assert mj - {k} == mk - {j};
      MapSumRemove(mj, k);
      MapSumRemove(mk, j);
    }
  }

  /** The values of a tally sum to the number of keys counted. */
  lemma {:induction false} TallySum(keys: seq<string>)
    ensures MapSum(Tally(keys)) == |keys|
  {
    if keys != [] {
      var init := keys[..|keys| - 1];
      var m := Tally(init);
      var k := keys[|keys| - 1];
      TallySum(init);
      var m' := Tally(keys);
      MapSumRemove(m', k);
      assert m' - {k} == m - {k};
      if k in m {
        MapSumRemove(m, k);
      } else {
        assert m - {k} == m;
      }
    }
  }

  /** The policy types of the policies, in order. */
  function TypesOf(ps: seq<Policy>): (r: seq<string>)
    ensures |r| == |ps|
  {
    if ps == [] then [] else TypesOf(ps[..|ps| - 1]) + [ps[|ps| - 1].info.policyType]
  }

  /** The complexities of the policies, in order. */
  function ComplexitiesOf(ps: seq<Policy>): (r: seq<string>)
    ensures |r| == |ps|
  {
    if ps == [] then [] else ComplexitiesOf(ps[..|ps| - 1]) + [ps[|ps| - 1].info.complexity]
  }

  /** Counting one more key adds one to its count and keeps the others. */
  lemma TallySnoc(keys: seq<string>, k: string)
    ensures var m := Tally(keys);
            Tally(keys + [k]) == m[k := (if k in m then m[k] else 0) + 1]
  {
    assert (keys + [k])[..|keys|] == keys;
  }

  /** The types and complexities of one more policy end with that policy's own. */
  lemma FieldsOfSnoc(ps: seq<Policy>, i: nat)
    requires i < |ps|
    ensures TypesOf(ps[..i + 1]) == TypesOf(ps[..i]) + [ps[i].info.policyType]
    ensures ComplexitiesOf(ps[..i + 1]) == ComplexitiesOf(ps[..i]) + [ps[i].info.complexity]
  {
    assert ps[..i + 1][..i] == ps[..i];
  }

  /** Both summaries of the full dataset count every policy exactly once. */
  lemma SummariesSum(ps: seq<Policy>)
    ensures MapSum(Tally(TypesOf(ps))) == |ps| && MapSum(Tally(ComplexitiesOf(ps))) == |ps|
  {
    TallySum(TypesOf(ps));
    TallySum(ComplexitiesOf(ps));
  }

  /** The summary loop of the full dataset. */
  method Summarize(policies: seq<Policy>) returns (byType: map<string, nat>, byComplexity: map<string, nat>)
    ensures byType == Tally(TypesOf(policies)) && byComplexity == Tally(ComplexitiesOf(policies))
  {
    byType := map[];
    byComplexity := map[];
    var i := 0;
    while i < |policies|
      invariant 0 <= i <= |policies|
      invariant byType == Tally(TypesOf(policies[..i]))
      invariant byComplexity == Tally(ComplexitiesOf(policies[..i]))
    {
      FieldsOfSnoc(policies, i);
      var ptype := policies[i].info.policyType;
      var complexity := policies[i].info.complexity;
      TallySnoc(TypesOf(policies[..i]), ptype);
      TallySnoc(ComplexitiesOf(policies[..i]), complexity);
      byType := byType[ptype := (if ptype in byType then byType[ptype] else 0) + 1];
      byComplexity := byComplexity[complexity := (if complexity in byComplexity then byComplexity[complexity] else 0) + 1];
      i := i + 1;
    }
    assert policies[..i] == policies;
  }

  // -------------------------------------------------------- the generators

  /** The choice both generators make: the scan when asked for and not empty, else the stamped defaults. */
  method ChoosePolicies(defaults: seq<PolicyInfo>, scanExisting: bool, dir: Directory, now: string)
    returns (policies: seq<Policy>)
    ensures policies == DatasetPolicies(defaults, scanExisting, dir, now)
  {
    var scanned: seq<Policy> := [];
    if scanExisting {
      scanned := ScanExistingPolicies(dir.(present := true), now);
    }
    if scanned != [] {
      policies := scanned;
    } else {
      policies := AddGeneratedAt(defaults, now);
    }
  }

  /** `generate_micro_metadata`: the micro dataset's policies. */
  method GenerateMicroMetadata(scanExisting: bool, dir: Directory, now: string) returns (policies: seq<Policy>)
    ensures policies == DatasetPolicies(MicroDefaults(), scanExisting, dir, now)
  {
    policies := ChoosePolicies(MicroDefaults(), scanExisting, dir, now);
  }

  /** `generate_full_metadata`: the full dataset's policies and their two summaries. */
  method GenerateFullMetadata(scanExisting: bool, dir: Directory, now: string)
    returns (policies: seq<Policy>, byType: map<string, nat>, byComplexity: map<string, nat>)
    ensures policies == DatasetPolicies(FullDefaults(), scanExisting, dir, now)
    ensures byType == Tally(TypesOf(policies)) && byComplexity == Tally(ComplexitiesOf(policies))
  {
    policies := ChoosePolicies(FullDefaults(), scanExisting, dir, now);
    byType, byComplexity := Summarize(policies);
  }

  // ---------------------------------------------------------- the flags

  /**
   * Which datasets are generated, micro and full: a dataset is generated
   * when its flag is given or no flag is, so at least one always is.
   */
  function DatasetsToGenerate(micro: bool, full: bool): (r: (bool, bool))
    ensures r.0 <==> micro || !full
    ensures r.1 <==> full || !micro
    ensures r.0 || r.1
  {
    if !micro && !full then (true, true) else (micro, full)
  }
}
