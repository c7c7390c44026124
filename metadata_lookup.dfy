/**
 * How the policy-requirements example obtains the metadata of the PDF it
 * extracts: from a metadata JSON file (one dict, or a list searched by
 * filename and then by stem), from the command line, or from an
 * interactive prompt, in that order of priority.
 */
module MetadataLookup {
  import opened Wrappers
  import opened Text
  import opened JsonValue
  import opened PurePath

  /** Why a lookup in a metadata list raises. */
  datatype LookupError =
    | NotADict(index: nat)                                // `entry.get` on an entry that is not a dict
    | FilenameNotText(index: nat)                         // `Path(filename)` of a filename that is not a string
    | NoMatch(pdfFilename: string, available: seq<Value>) // the ValueError naming the available filenames

  // ------------------------------------------------------ the exact pass

  /** `entry.get("filename") == pdf_filename`. */
  predicate IsExactMatch(entry: Value, pdfFilename: string) {
    entry.Obj? && Get(entry.fields, "filename", Null) == Str(pdfFilename)
  }

  /** The entries `k..j` were all looked at by the exact pass without a match and without raising. */
  predicate ExactPassed(es: seq<Value>, pdfFilename: string, k: nat, j: nat)
    requires k <= j <= |es|
  {
    forall i :: k <= i < j ==> es[i].Obj? && !IsExactMatch(es[i], pdfFilename)
  }

  /** The first pass from entry `k` on: the first exact match, nothing, or the error of a non-dict entry. */
  function ExactFrom(es: seq<Value>, pdfFilename: string, k: nat): (r: Result<Option<Value>, LookupError>)
    requires k <= |es|
    ensures r.Failure? ==> r.error.NotADict? && k <= r.error.index < |es|
    decreases |es| - k
  {
    if k == |es| then Success(None)
    else if !es[k].Obj? then Failure(NotADict(k))
    else if IsExactMatch(es[k], pdfFilename) then Success(Some(es[k]))
    else ExactFrom(es, pdfFilename, k + 1)
  }

  /** The first pass stops at the first entry that matches or is not a dict, and finds nothing when there is none. */
  lemma {:induction false} ExactFromMeaning(es: seq<Value>, pdfFilename: string, k: nat, j: nat)
    requires k <= j <= |es| && ExactPassed(es, pdfFilename, k, j)
    ensures j == |es| ==> ExactFrom(es, pdfFilename, k) == Success(None)
    ensures j < |es| && IsExactMatch(es[j], pdfFilename) ==> ExactFrom(es, pdfFilename, k) == Success(Some(es[j]))
    ensures j < |es| && !es[j].Obj? ==> ExactFrom(es, pdfFilename, k) == Failure(NotADict(j))
    decreases j - k
  {
    if k < j {
      ExactFromMeaning(es, pdfFilename, k + 1, j);
    }
  }

  /** Conversely, a pass that finds nothing has passed every entry. */
  lemma {:induction false} ExactFromNone(es: seq<Value>, pdfFilename: string, k: nat)
    requires k <= |es| && ExactFrom(es, pdfFilename, k) == Success(None)
    ensures ExactPassed(es, pdfFilename, k, |es|)
    decreases |es| - k
  {
    if k < |es| {
      ExactFromNone(es, pdfFilename, k + 1);
    }
  }

  // ------------------------------------------------------- the stem pass

  /** `entry.get("filename", "")`, for a dict entry. */
  function FilenameOr(entry: Value, default: Value): Value {
    if entry.Obj? then Get(entry.fields, "filename", default) else default
  }

  /** What the second pass makes of one entry: an error, or the stem of its filename. */
  datatype StemKey = NoDict | NoText | StemText(stem: string)

  /** `Path(entry.get("filename", "")).stem`, or the error that computing it raises. */
  function KeyOf(entry: Value): StemKey {
    if !entry.Obj? then NoDict
    else
      var filename := FilenameOr(entry, Str(""));
      if !filename.Str? then NoText else StemText(Stem(Name(filename.s)))
  }

  /** The key of every entry, in order. */
  function StemKeys(es: seq<Value>): (keys: seq<StemKey>)
    ensures |keys| == |es|
  {
    if es == [] then [] else StemKeys(es[..|es| - 1]) + [KeyOf(es[|es| - 1])]
  }

  /** Each key is its own entry's. */
  lemma {:induction false} StemKeysAt(es: seq<Value>, k: nat)
    requires k < |es|
    ensures StemKeys(es)[k] == KeyOf(es[k])
  {
    if k < |es| - 1 {
      StemKeysAt(es[..|es| - 1], k);
    }
  }

  /** The entries `k..j` were all looked at by the stem pass without a match and without raising. */
  predicate StemPassed(keys: seq<StemKey>, pdfStem: string, k: nat, j: nat)
    requires k <= j <= |keys|
  {
    forall i :: k <= i < j ==> keys[i].StemText? && keys[i].stem != pdfStem
  }

  /** The second pass from entry `k` on: the first stem match, nothing, or the error that stops it. */
  function StemFrom(es: seq<Value>, keys: seq<StemKey>, pdfStem: string, k: nat): (r: Result<Option<Value>, LookupError>)
    requires |keys| == |es| && k <= |es|
    ensures r.Failure? ==> (r.error.NotADict? || r.error.FilenameNotText?) && k <= r.error.index < |es|
    decreases |es| - k
  {
    if k == |es| then Success(None)
    else match keys[k]
      case NoDict => Failure(NotADict(k))
      case NoText => Failure(FilenameNotText(k))
      case StemText(stem) => if stem == pdfStem then Success(Some(es[k])) else StemFrom(es, keys, pdfStem, k + 1)
  }

  /** The second pass stops at the first entry that matches by stem or raises, and finds nothing when there is none. */
  lemma {:induction false} StemFromMeaning(es: seq<Value>, keys: seq<StemKey>, pdfStem: string, k: nat, j: nat)
    requires |keys| == |es| && k <= j <= |es| && StemPassed(keys, pdfStem, k, j)
    ensures j == |es| ==> StemFrom(es, keys, pdfStem, k) == Success(None)
    ensures j < |es| && keys[j] == StemText(pdfStem) ==> StemFrom(es, keys, pdfStem, k) == Success(Some(es[j]))
    ensures j < |es| && keys[j] == NoDict ==> StemFrom(es, keys, pdfStem, k) == Failure(NotADict(j))
    ensures j < |es| && keys[j] == NoText ==> StemFrom(es, keys, pdfStem, k) == Failure(FilenameNotText(j))
    decreases j - k
  {
    if k < j {
      StemFromMeaning(es, keys, pdfStem, k + 1, j);
    }
  }

  /** Conversely, a pass that finds nothing has passed every entry. */
  lemma {:induction false} StemFromNone(es: seq<Value>, keys: seq<StemKey>, pdfStem: string, k: nat)
    requires |keys| == |es| && k <= |es| && StemFrom(es, keys, pdfStem, k) == Success(None)
    ensures StemPassed(keys, pdfStem, k, |es|)
    decreases |es| - k
  {
    if k < |es| {
      StemFromNone(es, keys, pdfStem, k + 1);
    }
  }

  /** `[e.get('filename') for e in metadata]`. */
  function Available(es: seq<Value>): (r: seq<Value>)
    ensures |r| == |es|
  {
    if es == [] then [] else Available(es[..|es| - 1]) + [FilenameOr(es[|es| - 1], Null)]
  }

  /** The listed filenames are the entries' own, `None` for an entry without one. */
  lemma {:induction false} AvailableAt(es: seq<Value>, k: nat)
    requires k < |es|
    ensures Available(es)[k] == FilenameOr(es[k], Null)
  {
    if k < |es| - 1 {
      AvailableAt(es[..|es| - 1], k);
    }
  }

  // ----------------------------------------------------------- the file

  /** The search of a metadata list: by the PDF's file name, then by its stem. */
  function ListLookup(es: seq<Value>, pdfFilename: string, pdfStem: string): Result<Value, LookupError> {
    match ExactFrom(es, pdfFilename, 0)
    case Failure(e) => Failure(e)
    case Success(Some(entry)) => Success(entry)
    case Success(None) =>
      match StemFrom(es, StemKeys(es), pdfStem, 0)
      case Failure(e) => Failure(e)
      case Success(Some(entry)) => Success(entry)
      case Success(None) => Failure(NoMatch(pdfFilename, Available(es)))
  }

  /**
   * `load_metadata_from_file`, given the parsed JSON of the file: anything
   * but a list is the metadata itself; a list is searched for the PDF's
   * name, then for its stem.
   */
  function LoadMetadata(metadata: Value, pdfPath: string): (r: Result<Value, LookupError>)
    ensures !metadata.Arr? ==> r == Success(metadata)
  {
    if !metadata.Arr? then Success(metadata)
    else ListLookup(metadata.items, Name(pdfPath), Stem(Name(pdfPath)))
  }

  /** The first entry whose filename is the PDF's name is the one returned. */
  lemma LookupExactMatch(es: seq<Value>, pdfFilename: string, pdfStem: string, j: nat)
    requires j < |es| && ExactPassed(es, pdfFilename, 0, j) && IsExactMatch(es[j], pdfFilename)
    ensures ListLookup(es, pdfFilename, pdfStem) == Success(es[j])
  {
    ExactFromMeaning(es, pdfFilename, 0, j);
  }

  /** Failing an exact match, the first entry whose filename has the PDF's stem is the one returned. */
  lemma LookupStemMatch(es: seq<Value>, pdfFilename: string, pdfStem: string, j: nat)
    requires ExactPassed(es, pdfFilename, 0, |es|)
    requires j < |es| && StemPassed(StemKeys(es), pdfStem, 0, j) && KeyOf(es[j]) == StemText(pdfStem)
    ensures ListLookup(es, pdfFilename, pdfStem) == Success(es[j])
  {
    ExactFromMeaning(es, pdfFilename, 0, |es|);
    StemKeysAt(es, j);
    StemFromMeaning(es, StemKeys(es), pdfStem, 0, j);
  }

  /** Whether the lookup raised the "no metadata found" error. */
  predicate IsNoMatch(r: Result<Value, LookupError>) {
    r.Failure? && r.error.NoMatch?
  }

  /**
   * The lookup raises "no metadata found" exactly when every entry is a
   * dict with a text filename and none matches the PDF by name or by stem;
   * the error then lists every entry's filename.
   */
  lemma LookupNoMatch(es: seq<Value>, pdfFilename: string, pdfStem: string)
    ensures IsNoMatch(ListLookup(es, pdfFilename, pdfStem)) <==>
            ExactPassed(es, pdfFilename, 0, |es|) && StemPassed(StemKeys(es), pdfStem, 0, |es|)
    ensures IsNoMatch(ListLookup(es, pdfFilename, pdfStem)) ==>
            ListLookup(es, pdfFilename, pdfStem).error == NoMatch(pdfFilename, Available(es))
  {
    if IsNoMatch(ListLookup(es, pdfFilename, pdfStem)) {
      ExactFromNone(es, pdfFilename, 0);
      StemFromNone(es, StemKeys(es), pdfStem, 0);
    }
    if ExactPassed(es, pdfFilename, 0, |es|) && StemPassed(StemKeys(es), pdfStem, 0, |es|) {
      ExactFromMeaning(es, pdfFilename, 0, |es|);
      StemFromMeaning(es, StemKeys(es), pdfStem, 0, |es|);
    }
  }

  /** A list lookup returns one of the list's own entries, and always a dict. */
  lemma LookupReturnsEntry(es: seq<Value>, pdfFilename: string, pdfStem: string)
    requires ListLookup(es, pdfFilename, pdfStem).Success?
    ensures ListLookup(es, pdfFilename, pdfStem).value in es && ListLookup(es, pdfFilename, pdfStem).value.Obj?
  {
    var r := ListLookup(es, pdfFilename, pdfStem);
    if ExactFrom(es, pdfFilename, 0).Success? && ExactFrom(es, pdfFilename, 0).value.Some? {
      var j := ExactFound(es, pdfFilename, 0);
    } else {
      var j := StemFound(es, StemKeys(es), pdfStem, 0);
      StemKeysAt(es, j);
    }
  }

  /** What the first pass finds is an entry at or after where it started, and it matches exactly. */
  lemma {:induction false} ExactFound(es: seq<Value>, pdfFilename: string, k: nat) returns (j: nat)
    requires k <= |es| && ExactFrom(es, pdfFilename, k).Success? && ExactFrom(es, pdfFilename, k).value.Some?
    ensures k <= j < |es| && ExactFrom(es, pdfFilename, k).value.value == es[j] && IsExactMatch(es[j], pdfFilename)
    decreases |es| - k
  {
    if IsExactMatch(es[k], pdfFilename) {
      j := k;
    } else {
      j := ExactFound(es, pdfFilename, k + 1);
    }
  }

  /** What the second pass finds is an entry at or after where it started, and its stem matches. */
  lemma {:induction false} StemFound(es: seq<Value>, keys: seq<StemKey>, pdfStem: string, k: nat) returns (j: nat)
    requires |keys| == |es| && k <= |es|
    requires StemFrom(es, keys, pdfStem, k).Success? && StemFrom(es, keys, pdfStem, k).value.Some?
    ensures k <= j < |es| && StemFrom(es, keys, pdfStem, k).value.value == es[j] && keys[j] == StemText(pdfStem)
    decreases |es| - k
  {
    if keys[k] == StemText(pdfStem) {
      j := k;
    } else {
      j := StemFound(es, keys, pdfStem, k + 1);
    }
  }

  /** `load_metadata_from_file`'s two loops over the parsed list, each returning at its first match. */
  method LoadMetadataFromFile(metadata: Value, pdfPath: string) returns (r: Result<Value, LookupError>)
    ensures r == LoadMetadata(metadata, pdfPath)
  {
    if !metadata.Arr? {
      return Success(metadata);
    }
    r := SearchList(metadata.items, Name(pdfPath));
  }

  /** The two loops over a parsed list, each returning at its first match, then the error listing the filenames. */
  method SearchList(es: seq<Value>, pdfFilename: string) returns (r: Result<Value, LookupError>)
    ensures r == ListLookup(es, pdfFilename, Stem(pdfFilename))
  {
    var i := 0;
    while i < |es|
      invariant 0 <= i <= |es|
      invariant ExactFrom(es, pdfFilename, 0) == ExactFrom(es, pdfFilename, i)
    {
      if !es[i].Obj? {
        return Failure(NotADict(i));
      }
      if Get(es[i].fields, "filename", Null) == Str(pdfFilename) {
        return Success(es[i]);
      }
      i := i + 1;
    }
    var pdfStem := Stem(pdfFilename);
    i := 0;
    while i < |es|
      invariant 0 <= i <= |es|
      invariant StemFrom(es, StemKeys(es), pdfStem, 0) == StemFrom(es, StemKeys(es), pdfStem, i)
    {
      StemKeysAt(es, i);
      if !es[i].Obj? {
        return Failure(NotADict(i));
      }
      var filename := Get(es[i].fields, "filename", Str(""));
      if !filename.Str? {
        return Failure(FilenameNotText(i));
      }
      if Stem(Name(filename.s)) == pdfStem {
        return Success(es[i]);
      }
      i := i + 1;
    }
    var available := [];
    i := 0;
    while i < |es|
      invariant 0 <= i <= |es|
      invariant available == Available(es[..i])
    {
      assert es[..i + 1][..i] == es[..i];
      available := available + [FilenameOr(es[i], Null)];
      i := i + 1;
    }
    assert es[..i] == es;
    return Failure(NoMatch(pdfFilename, available));
  }

  // --------------------------------------------------------- the prompt

  /** The menu of `prompt_for_metadata`: choices 1 to 5, and "Financial" for any other answer. */
  function TypeOfChoice(choice: string): (t: string)
    ensures t in {"Financial", "IT Security", "HR", "Legal", "Compliance"}
    ensures t == "Financial" <==> choice == "1" || choice !in {"1", "2", "3", "4", "5"}
  {
    if choice == "2" then "IT Security"
    else if choice == "3" then "HR"
    else if choice == "4" then "Legal"
    else if choice == "5" then "Compliance"
    else "Financial"
  }

  /** The five menu choices name five different types, so every type can be chosen. */
  lemma TypeMenuOneToOne(c: string, d: string)
    requires c in {"1", "2", "3", "4", "5"} && d in {"1", "2", "3", "4", "5"} && c != d
    ensures TypeOfChoice(c) != TypeOfChoice(d)
  {
  }

  /** The five answers typed at the prompt, as read by `input()`. */
  datatype Answers = Answers(policyId: string, policyTitle: string, typeChoice: string,
                             policyVersion: string, effectiveDate: string)

  /** The required fields plus each optional one that is not empty. */
  function WithOptional(id: string, title: string, policyType: string, version: string, date: string): Dict {
    var required := map["policy_id" := Str(id), "policy_title" := Str(title), "policy_type" := Str(policyType)];
    var withVersion := if version != "" then required["policy_version" := Str(version)] else required;
    if date != "" then withVersion["effective_date" := Str(date)] else withVersion
  }

  /**
   * `prompt_for_metadata`: every answer stripped and the type read off the
   * menu. The dict always holds the three required fields; the version
   * and the date are present exactly when their stripped answers are not
   * empty, and nothing else is.
   */
  function PromptForMetadata(a: Answers): (d: Dict)
    ensures "policy_id" in d && "policy_title" in d && "policy_type" in d
    ensures d["policy_id"] == Str(Strip(a.policyId)) && d["policy_title"] == Str(Strip(a.policyTitle))
    ensures d["policy_type"] == Str(TypeOfChoice(Strip(a.typeChoice)))
    ensures "policy_version" in d <==> Strip(a.policyVersion) != ""
    ensures "policy_version" in d ==> d["policy_version"] == Str(Strip(a.policyVersion))
    ensures "effective_date" in d <==> Strip(a.effectiveDate) != ""
    ensures "effective_date" in d ==> d["effective_date"] == Str(Strip(a.effectiveDate))
    ensures d.Keys <= {"policy_id", "policy_title", "policy_type", "policy_version", "effective_date"}
  {
    WithOptional(Strip(a.policyId), Strip(a.policyTitle), TypeOfChoice(Strip(a.typeChoice)),
                 Strip(a.policyVersion), Strip(a.effectiveDate))
  }

  /** No prompted field starts or ends with whitespace, and answering again with the dict's own values gives the same dict. */
  lemma PromptStable(a: Answers)
    ensures var d := PromptForMetadata(a);
            var again := Answers(Strip(a.policyId), Strip(a.policyTitle), Strip(a.typeChoice),
                                 Strip(a.policyVersion), Strip(a.effectiveDate));
            PromptForMetadata(again) == d
  {
    StripIdempotent(a.policyId);
    StripIdempotent(a.policyTitle);
    StripIdempotent(a.typeChoice);
    StripIdempotent(a.policyVersion);
    StripIdempotent(a.effectiveDate);
  }

  // ------------------------------------------------------- the priority

  /** The optional command-line arguments that bear on the metadata; `None` when not given. */
  datatype CliArgs = CliArgs(metadata: Option<string>, policyId: Option<string>, policyTitle: Option<string>,
                             policyType: Option<string>, policyVersion: Option<string>,
                             effectiveDate: Option<string>)

  /** Python truthiness of an optional string argument. */
  predicate Given(arg: Option<string>) {
    arg.Some? && arg.value != ""
  }

  /** Where the metadata comes from. */
  datatype Source = FromFile | FromArguments | FromPrompt

  /** The fixed priority: the metadata file, then the three required arguments together, then the prompt. */
  function SourceOf(args: CliArgs): (s: Source)
    ensures s == FromFile <==> Given(args.metadata)
    ensures s == FromArguments <==>
              !Given(args.metadata) && Given(args.policyId) && Given(args.policyTitle) && Given(args.policyType)
    ensures s == FromPrompt <==>
              !Given(args.metadata) && !(Given(args.policyId) && Given(args.policyTitle) && Given(args.policyType))
  {
    if Given(args.metadata) then FromFile
    else if Given(args.policyId) && Given(args.policyTitle) && Given(args.policyType) then FromArguments
    else FromPrompt
  }

  /**
   * The metadata `main` resolves before it prints the policy and passes it
   * to the extractor (a file entry without `policy_title` fails at that
   * print, which is not modelled), given the parsed JSON of the metadata
   * file and the answers the prompt would read. Only the file
   * can make the lookup raise; metadata from the arguments or the prompt is
   * a dict with its three required fields, and takes the arguments as
   * given, the optional ones only when not empty.
   */
  function ResolveMetadata(args: CliArgs, fileJson: Value, pdfPath: string, answers: Answers): (r: Result<Value, LookupError>)
    ensures r.Failure? ==> SourceOf(args) == FromFile
    ensures SourceOf(args) == FromFile ==> r == LoadMetadata(fileJson, pdfPath)
    ensures SourceOf(args) != FromFile ==>
              r.Success? && r.value.Obj? && {"policy_id", "policy_title", "policy_type"} <= r.value.fields.Keys
    ensures SourceOf(args) == FromArguments ==>
              r.Success? && r.value.Obj?
              && r.value.fields["policy_id"] == Str(args.policyId.value)
              && r.value.fields["policy_title"] == Str(args.policyTitle.value)
              && r.value.fields["policy_type"] == Str(args.policyType.value)
              && ("policy_version" in r.value.fields <==> Given(args.policyVersion))
              && ("effective_date" in r.value.fields <==> Given(args.effectiveDate))
    ensures SourceOf(args) == FromPrompt ==> r == Success(Obj(PromptForMetadata(answers)))
  {
    match SourceOf(args)
    case FromFile => LoadMetadata(fileJson, pdfPath)
    case FromArguments =>
      Success(Obj(WithOptional(args.policyId.value, args.policyTitle.value, args.policyType.value,
                               args.policyVersion.GetOr(""), args.effectiveDate.GetOr(""))))
    case FromPrompt => Success(Obj(PromptForMetadata(answers)))
  }
}
