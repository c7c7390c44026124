/**
 * The metadata generator for the policy datasets. An existing dataset
 * directory is scanned for policy files named `<PREFIX>-<digits>_<words>.md`;
 * each such file yields its id, title, type, version, effective date and
 * complexity, in filename order. When scanning is not asked for, or finds
 * nothing, a fixed default structure is used instead. The full dataset is
 * summarised by per-type and per-complexity tallies.
 */
module MetadataScan {
  import opened Wrappers
  import opened Text
  import opened PurePath

  // ------------------------------------------------------------ the files

  /** One directory entry: its name, its `st_size`, and its text (`None` when opening or reading raises). */
  datatype PolicyFile = PolicyFile(name: string, size: nat, content: Option<string>)

  /** A dataset directory: whether it exists, and its entries. */
  datatype Directory = Directory(present: bool, entries: seq<PolicyFile>)

  /** The pattern `*.md` of `glob("*.md")` on one name. */
  predicate IsMarkdownName(name: string) {
    |name| >= 3 && name[|name| - 3] == '.' && name[|name| - 2] == 'm' && name[|name| - 1] == 'd'
  }

  /** `glob("*.md")`: the entries with a markdown name, in directory order. */
  function MarkdownFiles(fs: seq<PolicyFile>): (r: seq<PolicyFile>)
    ensures |r| <= |fs|
  {
    if fs == [] then []
    else MarkdownFiles(fs[..|fs| - 1]) + (if IsMarkdownName(fs[|fs| - 1].name) then [fs[|fs| - 1]] else [])
  }

  lemma {:induction false} MarkdownFilesMembers(fs: seq<PolicyFile>, f: PolicyFile)
    ensures f in MarkdownFiles(fs) <==> f in fs && IsMarkdownName(f.name)
  {
    if fs != [] {
      var init := fs[..|fs| - 1];
      MarkdownFilesMembers(init, f);
      assert fs == init + [fs[|fs| - 1]];
    }
  }

  // ------------------------------------------------------------ the order

  /** Entries in ascending name order. */
  predicate SortedByName(fs: seq<PolicyFile>) {
    forall i, j :: 0 <= i < j < |fs| ==> StrLe(fs[i].name, fs[j].name)
  }

  /** `f` placed before the first entry it does not follow. */
  function Insert(f: PolicyFile, fs: seq<PolicyFile>): (r: seq<PolicyFile>)
    ensures |r| == |fs| + 1
  {
    if fs == [] || StrLe(f.name, fs[0].name) then [f] + fs
    else [fs[0]] + Insert(f, fs[1..])
  }

  /** `sorted(policy_files)`: paths of one directory compare by their names, and the sort is stable. */
  function SortByName(fs: seq<PolicyFile>): (r: seq<PolicyFile>)
    ensures |r| == |fs|
  {
    if fs == [] then [] else Insert(fs[0], SortByName(fs[1..]))
  }

  /** No entry of `fs` comes before the name `a`. */
  predicate NameBound(a: string, fs: seq<PolicyFile>) {
    forall j :: 0 <= j < |fs| ==> StrLe(a, fs[j].name)
  }

  /** A sorted list stays sorted with `f` in front when no entry comes before it. */
  lemma ConsSorted(f: PolicyFile, fs: seq<PolicyFile>)
    requires SortedByName(fs) && NameBound(f.name, fs)
    ensures SortedByName([f] + fs)
  {
    var r := [f] + fs;
    forall i, j | 0 <= i < j < |r| ensures StrLe(r[i].name, r[j].name) {
      assert r[j] == fs[j - 1];
      if i > 0 {
        assert r[i] == fs[i - 1];
      }
    }
  }

  lemma SortedTail(fs: seq<PolicyFile>)
    requires SortedByName(fs) && fs != []
    ensures SortedByName(fs[1..]) && NameBound(fs[0].name, fs[1..])
  {
    var rest := fs[1..];
    forall i, j | 0 <= i < j < |rest| ensures StrLe(rest[i].name, rest[j].name) {
      assert rest[i] == fs[i + 1] && rest[j] == fs[j + 1];
    }
    forall j | 0 <= j < |rest| ensures StrLe(fs[0].name, rest[j].name) {
      assert rest[j] == fs[j + 1];
    }
  }

  /** A bound of every entry of a list and of `f` bounds any arrangement of them. */
  lemma BoundPermutation(a: string, fs: seq<PolicyFile>, f: PolicyFile, gs: seq<PolicyFile>)
    requires NameBound(a, fs) && StrLe(a, f.name) && multiset(gs) == multiset(fs) + multiset{f}
    ensures NameBound(a, gs)
  {
    forall j | 0 <= j < |gs| ensures StrLe(a, gs[j].name) {
      assert gs[j] in multiset(gs);
      if gs[j] != f {
        assert gs[j] in multiset(fs);
        var k :| 0 <= k < |fs| && fs[k] == gs[j];
      }
    }
  }

  lemma {:induction false} InsertMeaning(f: PolicyFile, fs: seq<PolicyFile>)
    requires SortedByName(fs)
    ensures SortedByName(Insert(f, fs))
    ensures multiset(Insert(f, fs)) == multiset(fs) + multiset{f}
    decreases |fs|
  {
    if fs == [] || StrLe(f.name, fs[0].name) {
      if fs != [] {
        SortedTail(fs);
        forall j | 0 <= j < |fs| ensures StrLe(f.name, fs[j].name) {
          if j > 0 {
            assert fs[j] == fs[1..][j - 1];
            StrLeTransitive(f.name, fs[0].name, fs[j].name);
          }
        }
      }
      ConsSorted(f, fs);
    } else {
      StrLeTotal(f.name, fs[0].name);
      var rest := fs[1..];
      assert fs == [fs[0]] + rest;
      SortedTail(fs);
      InsertMeaning(f, rest);
      BoundPermutation(fs[0].name, rest, f, Insert(f, rest));
      ConsSorted(fs[0], Insert(f, rest));
    }
  }

  /** The sorted list is in ascending name order and holds the same entries, each as often. */
  lemma {:induction false} SortByNameMeaning(fs: seq<PolicyFile>)
    ensures SortedByName(SortByName(fs))
    ensures multiset(SortByName(fs)) == multiset(fs)
  {
    if fs != [] {
      SortByNameMeaning(fs[1..]);
      InsertMeaning(fs[0], SortByName(fs[1..]));
      assert fs == [fs[0]] + fs[1..];
    }
  }

  /** Within one directory, where names are distinct, ascending order is strict. */
  lemma SortedDistinctStrict(fs: seq<PolicyFile>, i: nat, j: nat)
    requires SortedByName(fs) && i < j < |fs| && fs[i].name != fs[j].name
    ensures !StrLe(fs[j].name, fs[i].name)
  {
    if StrLe(fs[j].name, fs[i].name) {
      StrLeAntisymmetric(fs[i].name, fs[j].name);
    }
  }

  // ------------------------------------------------------- the file name

  /** The character classes of the patterns: `[A-Z]`, `\d`, `[:\s]`, `[0-9.]` and `[0-9-]`. */
  datatype CharClass = Capital | Digit | Separator | VersionChar | DateChar

  predicate InClass(c: char, cls: CharClass) {
    match cls
    case Capital => IsAsciiUpper(c)
    case Digit => IsAsciiDigit(c)
    case Separator => c == ':' || IsWhitespace(c)
    case VersionChar => IsAsciiDigit(c) || c == '.'
    case DateChar => IsAsciiDigit(c) || c == '-'
  }

  /** How many characters of the class a greedy `+` or `*` takes from position `i`. */
  function Run(s: string, i: nat, cls: CharClass): (n: nat)
    requires i <= |s|
    ensures i + n <= |s|
    decreases |s| - i
  {
    if i < |s| && InClass(s[i], cls) then 1 + Run(s, i + 1, cls) else 0
  }

  /** The run is every character of the class from `i`, and stops at the first one outside it. */
  lemma {:induction false} RunMeaning(s: string, i: nat, cls: CharClass)
    requires i <= |s|
    ensures forall k :: i <= k < i + Run(s, i, cls) ==> InClass(s[k], cls)
    ensures i + Run(s, i, cls) == |s| || !InClass(s[i + Run(s, i, cls)], cls)
    decreases |s| - i
  {
    if i < |s| && InClass(s[i], cls) {
      RunMeaning(s, i + 1, cls);
    }
  }

  /** A stretch of the class that ends at the end or before a character outside it is the run. */
  lemma {:induction false} RunExact(s: string, i: nat, n: nat, cls: CharClass)
    requires i + n <= |s|
    requires forall k :: i <= k < i + n ==> InClass(s[k], cls)
    requires i + n == |s| || !InClass(s[i + n], cls)
    ensures Run(s, i, cls) == n
    decreases n
  {
    if n > 0 {
      RunExact(s, i + 1, n - 1, cls);
    }
  }

  /** A policy id: one or more ASCII capitals, a hyphen, one or more ASCII digits. */
  predicate IsPolicyId(id: string) {
    '-' in id
    && var n := IndexOf(id, '-');
       0 < n < |id| - 1
       && (forall k :: 0 <= k < n ==> IsAsciiUpper(id[k]))
       && (forall k :: n < k < |id| ==> IsAsciiDigit(id[k]))
  }

  /**
   * `re.match(r"^([A-Z]+-\d+)_", filename)`: the group, when the name starts
   * with the pattern. A group is a policy id, and the name begins with it
   * and an underscore.
   */
  function MatchPolicyId(name: string): (r: Option<string>)
    ensures r.Some? ==> IsPolicyId(r.value) && StartsWith(name, r.value + "_")
  {
    var n := Run(name, 0, Capital);
    if n == 0 || n == |name| || name[n] != '-' then None
    else
      var d := Run(name, n + 1, Digit);
      if d == 0 || n + 1 + d == |name| || name[n + 1 + d] != '_' then None
      else
        var id := name[..n + 1 + d];
        RunMeaning(name, 0, Capital);
        RunMeaning(name, n + 1, Digit);
        assert forall k :: 0 <= k < |id| ==> id[k] == name[k];
        IndexOfAt(id, '-', n);
        assert name[..|id| + 1] == id + "_";
        Some(id)
  }

  /** A name beginning with a policy id and an underscore matches, with that id as the group. */
  lemma MatchPolicyIdComplete(name: string, id: string)
    requires IsPolicyId(id) && StartsWith(name, id + "_")
    ensures MatchPolicyId(name) == Some(id)
  {
    var n := IndexOf(id, '-');
    assert forall k :: 0 <= k <= |id| ==> name[k] == (id + "_")[k];
    RunExact(name, 0, n, Capital);
    RunExact(name, n + 1, |id| - n - 1, Digit);
    assert name[..|id|] == id;
  }

  /**
   * The pattern matches exactly the names that begin with a policy id and an
   * underscore, and its group is that id.
   */
  lemma MatchPolicyIdMeaning(name: string, id: string)
    ensures MatchPolicyId(name) == Some(id) <==> IsPolicyId(id) && StartsWith(name, id + "_")
  {
    if IsPolicyId(id) && StartsWith(name, id + "_") {
      MatchPolicyIdComplete(name, id);
    }
  }

  /** `policy_id.split("-")[0]`: the capitals of a policy id. */
  function Prefix(id: string): string {
    Split(id, '-')[0]
  }

  lemma PrefixOfPolicyId(id: string)
    requires IsPolicyId(id)
    ensures Prefix(id) == id[..IndexOf(id, '-')]
  {
  }

  /** A markdown file's stem is its name without ".md", once something precedes the suffix. */
  lemma StemOfMarkdown(name: string)
    requires IsMarkdownName(name) && |name| > 3
    ensures Stem(name) == name[..|name| - 3]
  {
    var i := LastIndexOf(name, '.');
    assert i == |name| - 3;
  }

  /** `stem.split("_", 1)[1] if "_" in stem else stem`. */
  function TitlePart(stem: string): string {
    if '_' in stem then stem[IndexOf(stem, '_') + 1..] else stem
  }

  /** `str.capitalize` (ASCII letters only): the first character upper case, the rest lower case. */
  function Capitalize(w: string): (r: string)
    ensures |r| == |w|
    ensures w != [] ==> r[0] == UpperChar(w[0])
    ensures forall k :: 0 < k < |w| ==> r[k] == LowerChar(w[k])
  {
    if w == [] then [] else [UpperChar(w[0])] + Lower(w[1..])
  }

  function CapitalizeAll(ws: seq<string>): (r: seq<string>)
    ensures |r| == |ws|
  {
    if ws == [] then [] else [Capitalize(ws[0])] + CapitalizeAll(ws[1..])
  }

  /** `" ".join(word.capitalize() for word in title_part.split("_"))`. */
  function Title(titlePart: string): string {
    Join(" ", CapitalizeAll(Split(titlePart, '_')))
  }

  /**
   * The title, character by character: each underscore becomes a space, a
   * character at the start or after an underscore is upper-cased, and every
   * other character is lower-cased.
   */
  function TitleChar(titlePart: string, k: nat): char
    requires k < |titlePart|
  {
    if titlePart[k] == '_' then ' '
    else if k == 0 || titlePart[k - 1] == '_' then UpperChar(titlePart[k])
    else LowerChar(titlePart[k])
  }

  /** The title of a part with an underscore: the first word capitalized, a space, the title of the rest. */
  lemma TitleCons(tp: string)
    requires '_' in tp
    ensures Title(tp) == Capitalize(tp[..IndexOf(tp, '_')]) + " " + Title(tp[IndexOf(tp, '_') + 1..])
  {
    var i := IndexOf(tp, '_');
    var w := tp[..i];
    var ws := Split(tp[i + 1..], '_');
    assert Split(tp, '_') == [w] + ws;
    CapitalizeAllCons(w, ws);
    JoinCons(" ", Capitalize(w), CapitalizeAll(ws));
  }

  lemma CapitalizeAllCons(w: string, ws: seq<string>)
    ensures CapitalizeAll([w] + ws) == [Capitalize(w)] + CapitalizeAll(ws)
  {
    assert ([w] + ws)[1..] == ws;
  }

  lemma JoinCons(sep: string, a: string, rest: seq<string>)
    requires rest != []
    ensures Join(sep, [a] + rest) == a + sep + Join(sep, rest)
  {
    assert ([a] + rest)[1..] == rest;
  }

  /** Splitting, capitalizing and joining works character by character, as `TitleChar` says. */
  lemma {:induction false} TitleMeaning(tp: string)
    ensures |Title(tp)| == |tp|
    ensures forall k :: 0 <= k < |tp| ==> Title(tp)[k] == TitleChar(tp, k)
    decreases |tp|
  {
    if '_' !in tp {
      assert Title(tp) == Capitalize(tp);
    } else {
      var i := IndexOf(tp, '_');
      var w := tp[..i];
      var rest := tp[i + 1..];
      TitleCons(tp);
      TitleMeaning(rest);
      forall k | 0 <= k < |tp| ensures Title(tp)[k] == TitleChar(tp, k) {
        if k < i {
          assert tp[k] == w[k];
          assert k > 0 ==> tp[k - 1] == w[k - 1];
        } else if k > i {
          assert Title(tp)[k] == Title(rest)[k - i - 1];
          assert rest[k - i - 1] == tp[k];
          assert k - i - 1 > 0 ==> rest[k - i - 2] == tp[k - 1];
        }
      }
    }
  }

  // ------------------------------------------------------------ the type

  /** `policy_type_map.get(prefix, "Unknown")`: exactly the five known prefixes have a type. */
  function PolicyType(prefix: string): (t: string)
    ensures t != "Unknown" <==> prefix in {"FIN", "IT", "HR", "LEG", "COMP"}
  {
    if prefix == "FIN" then "Financial"
    else if prefix == "IT" then "IT Security"
    else if prefix == "HR" then "HR"
    else if prefix == "LEG" then "Legal"
    else if prefix == "COMP" then "Compliance"
    else "Unknown"
  }

  /** Distinct known prefixes have distinct types. */
  lemma PolicyTypeKnown(prefix: string, other: string)
    ensures PolicyType(prefix) != "Unknown" && PolicyType(prefix) == PolicyType(other) ==> prefix == other
  {
  }

  // ------------------------------------------------------ the text fields

  /** `f.read(1000)`: the first 1000 characters. */
  function Head(content: string): (h: string)
    ensures |h| <= 1000 && StartsWith(content, h)
    ensures |content| <= 1000 ==> h == content
  {
    if |content| <= 1000 then content else content[..1000]
  }

  /** The lower-case keyword `kw` occurs at `p`, ignoring ASCII case. */
  predicate KeywordAt(s: string, p: nat, kw: string) {
    p + |kw| <= |s| && forall k :: 0 <= k < |kw| ==> LowerChar(s[p + k]) == kw[k]
  }

  /**
   * The pattern `<kw>[:\s]+(<cls>+)` matched at `p`, case-insensitively: its
   * group. The separators are taken greedily; since no separator is in the
   * group's class, giving one back never helps, so the match needs at least
   * one separator followed by a character of the class, and the group is the
   * whole run of the class from there.
   */
  function FieldAt(s: string, p: nat, kw: string, cls: CharClass): (r: Option<string>)
    ensures r.Some? ==> r.value != [] && (forall k :: 0 <= k < |r.value| ==> InClass(r.value[k], cls))
  {
    if !KeywordAt(s, p, kw) then None
    else
      var q := p + |kw|;
      var n := Run(s, q, Separator);
      if n == 0 || q + n == |s| || !InClass(s[q + n], cls) then None
      else
        RunMeaning(s, q + n, cls);
        var v := s[q + n..q + n + Run(s, q + n, cls)];
        assert forall k :: 0 <= k < |v| ==> v[k] == s[q + n + k];
        Some(v)
  }

  /** `re.search`: the group of the leftmost match at or after `p`. */
  function SearchFrom(s: string, p: nat, kw: string, cls: CharClass): (r: Option<string>)
    requires p <= |s|
    ensures r.Some? ==> r.value != [] && (forall k :: 0 <= k < |r.value| ==> InClass(r.value[k], cls))
    decreases |s| - p
  {
    if FieldAt(s, p, kw, cls).Some? then FieldAt(s, p, kw, cls)
    else if p == |s| then None
    else SearchFrom(s, p + 1, kw, cls)
  }

  function Search(s: string, kw: string, cls: CharClass): (r: Option<string>)
    ensures r.Some? ==> r.value != [] && (forall k :: 0 <= k < |r.value| ==> InClass(r.value[k], cls))
  {
    SearchFrom(s, 0, kw, cls)
  }

  lemma {:induction false} SearchFromMeaning(s: string, p: nat, kw: string, cls: CharClass) returns (at: nat)
    requires p <= |s|
    ensures SearchFrom(s, p, kw, cls).Some? ==>
              p <= at <= |s| && FieldAt(s, at, kw, cls) == SearchFrom(s, p, kw, cls)
              && forall k :: p <= k < at ==> FieldAt(s, k, kw, cls).None?
    ensures SearchFrom(s, p, kw, cls).None? ==> forall k :: p <= k <= |s| ==> FieldAt(s, k, kw, cls).None?
    decreases |s| - p
  {
    at := p;
    if FieldAt(s, p, kw, cls).None? && p < |s| {
      at := SearchFromMeaning(s, p + 1, kw, cls);
    }
  }

  /**
   * The search finds the group of the leftmost position where the pattern
   * matches, and finds nothing exactly when it matches nowhere.
   */
  lemma SearchMeaning(s: string, kw: string, cls: CharClass) returns (at: nat)
    ensures Search(s, kw, cls).Some? ==>
              at <= |s| && FieldAt(s, at, kw, cls) == Search(s, kw, cls)
              && forall k :: 0 <= k < at ==> FieldAt(s, k, kw, cls).None?
    ensures Search(s, kw, cls).None? <==> forall k :: 0 <= k <= |s| ==> FieldAt(s, k, kw, cls).None?
  {
    at := SearchFromMeaning(s, 0, kw, cls);
  }

  /**
   * The version: the first `Version[:\s]+([0-9.]+)` in the head, else "1.0";
   * "1.0" also when reading fails. A version is always a non-empty run of
   * digits and dots, found or defaulted.
   */
  function VersionOf(f: PolicyFile): (v: string)
    ensures v != [] && forall k :: 0 <= k < |v| ==> InClass(v[k], VersionChar)
    ensures f.content.None? ==> v == "1.0"
  {
    match f.content
    case None => "1.0"
    case Some(c) => Search(Head(c), "version", VersionChar).GetOr("1.0")
  }

  /**
   * The effective date: the first `Effective Date[:\s]+([0-9-]+)` in the
   * head, else "2024-01-15". It is always a non-empty run of digits and
   * hyphens, found or defaulted.
   */
  function EffectiveDateOf(f: PolicyFile): (v: string)
    ensures v != [] && forall k :: 0 <= k < |v| ==> InClass(v[k], DateChar)
    ensures f.content.None? ==> v == "2024-01-15"
  {
    match f.content
    case None => "2024-01-15"
    case Some(c) => Search(Head(c), "effective date", DateChar).GetOr("2024-01-15")
  }

  /** Only the first 1000 characters are read: what follows them never changes the fields. */
  lemma FieldsReadHeadOnly(f: PolicyFile, g: PolicyFile)
    requires f.content.Some? && g.content.Some? && Head(f.content.value) == Head(g.content.value)
    ensures VersionOf(f) == VersionOf(g) && EffectiveDateOf(f) == EffectiveDateOf(g)
  {
  }

  // ------------------------------------------------------ the complexity

  /** The complexity estimated from the file size: the thresholds are 3000 and 10000 bytes. */
  function Complexity(size: nat): (c: string)
    ensures c == "simple" <==> size < 3000
    ensures c == "complex" <==> 10000 <= size
    ensures c == "medium" <==> 3000 <= size < 10000
  {
    if size < 3000 then "simple" else if size < 10000 then "medium" else "complex"
  }

  /** The rank of a complexity: simple, medium, complex. */
  function ComplexityRank(c: string): nat {
    if c == "simple" then 0 else if c == "medium" then 1 else 2
  }

  /** A larger file is never estimated simpler. */
  lemma ComplexityMonotone(a: nat, b: nat)
    requires a <= b
    ensures ComplexityRank(Complexity(a)) <= ComplexityRank(Complexity(b))
  {
  }

  // -------------------------------------------------------- the entries

  /** The fields every metadata dict has, whether scanned or one of the defaults. */
  datatype PolicyInfo = PolicyInfo(
    policyId: string,
    policyTitle: string,
    policyType: string,
    policyVersion: string,
    effectiveDate: string,
    filename: string,
    complexity: string)

  /** The fields particular to a scanned entry or to a default one. */
  datatype Stamp = Scanned(fileSize: nat, scannedAt: string) | Generated(generatedAt: string)

  /** One metadata dict. */
  datatype Policy = Policy(info: PolicyInfo, stamp: Stamp)

  /**
   * The metadata of one file of the scan, or `None` when its name does not
   * match (it is skipped). An entry names its file, its id begins the name,
   * and it is stamped with the file's size and the scan time.
   */
  function EntryOf(f: PolicyFile, now: string): (e: Option<Policy>)
    ensures e.Some? <==> MatchPolicyId(f.name).Some?
    ensures e.Some? ==> && IsPolicyId(e.value.info.policyId) && StartsWith(f.name, e.value.info.policyId + "_")
                        && e.value.info.filename == f.name && e.value.stamp == Scanned(f.size, now)
                        && e.value.info.complexity == Complexity(f.size)
  {
    match MatchPolicyId(f.name)
    case None => None
    case Some(id) =>
      var title := Title(TitlePart(Stem(f.name)));
      Some(Policy(PolicyInfo(id, title, PolicyType(Prefix(id)), VersionOf(f), EffectiveDateOf(f), f.name,
                             Complexity(f.size)),
                  Scanned(f.size, now)))
  }

  /** A policy id holds no underscore. */
  lemma PolicyIdNoUnderscore(id: string)
    requires IsPolicyId(id)
    ensures '_' !in id
  {
    forall k | 0 <= k < |id| ensures id[k] != '_' {
      if k != IndexOf(id, '-') {
        assert IsAsciiUpper(id[k]) || IsAsciiDigit(id[k]);
      }
    }
  }

  /** The name `<id>_<words>.md` matches with its id, and its title part is the words. */
  lemma ParseName(id: string, words: string)
    requires IsPolicyId(id)
    ensures var name := id + "_" + words + ".md";
            MatchPolicyId(name) == Some(id) && TitlePart(Stem(name)) == words
  {
    var name := id + "_" + words + ".md";
    assert StartsWith(name, id + "_") by {
      assert name[..|id| + 1] == id + "_";
    }
    MatchPolicyIdComplete(name, id);
    StemOfMarkdown(name);
    var stem := name[..|name| - 3];
    assert stem == id + "_" + words;
    PolicyIdNoUnderscore(id);
    IndexOfAt(stem, '_', |id|);
    assert stem[|id| + 1..] == words;
  }

  /**
   * The entry of a file named `<id>_<words>.md`: the id, the title made from
   * the words, the type of the id's capitals, the fields found in the text,
   * the file's own name, the complexity of its size, and the scan's stamp.
   */
  lemma EntryOfName(id: string, words: string, size: nat, content: Option<string>, now: string)
    requires IsPolicyId(id)
    ensures var f := PolicyFile(id + "_" + words + ".md", size, content);
            EntryOf(f, now) == Some(Policy(PolicyInfo(id, Title(words), PolicyType(id[..IndexOf(id, '-')]),
                                                     VersionOf(f), EffectiveDateOf(f), f.name, Complexity(size)),
                                          Scanned(size, now)))
  {
    ParseName(id, words);
    PrefixOfPolicyId(id);
  }

  /** A file whose name does not match the pattern has no entry. */
  lemma EntryOfUnmatched(f: PolicyFile, now: string)
    requires forall id :: IsPolicyId(id) ==> !StartsWith(f.name, id + "_")
    ensures EntryOf(f, now).None?
  {
  }

  /** The entry, or the skip, of each file in turn. */
  function EntryOptions(fs: seq<PolicyFile>, now: string): (os: seq<Option<Policy>>)
    ensures |os| == |fs|
  {
    if fs == [] then [] else EntryOptions(fs[..|fs| - 1], now) + [EntryOf(fs[|fs| - 1], now)]
  }

  lemma {:induction false} EntryOptionsAt(fs: seq<PolicyFile>, now: string, k: nat)
    requires k < |fs|
    ensures EntryOptions(fs, now)[k] == EntryOf(fs[k], now)
  {
    if k < |fs| - 1 {
      EntryOptionsAt(fs[..|fs| - 1], now, k);
    }
  }

  /** Each entry carries the name of its own file. */
  lemma EntryOptionsNames(fs: seq<PolicyFile>, now: string)
    ensures var os := EntryOptions(fs, now);
            forall k :: 0 <= k < |fs| && os[k].Some? ==> os[k].value.info.filename == fs[k].name
  {
    var os := EntryOptions(fs, now);
    forall k | 0 <= k < |fs| && os[k].Some? ensures os[k].value.info.filename == fs[k].name {
      EntryOptionsAt(fs, now, k);
      EntryFilename(fs[k], now);
    }
  }

  /** The present values, in order. */
  function Somes(os: seq<Option<Policy>>): (r: seq<Policy>)
    ensures |r| <= |os|
  {
    if os == [] then []
    else
      var init := Somes(os[..|os| - 1]);
      match os[|os| - 1]
      case None => init
      case Some(e) => init + [e]
  }

  lemma {:induction false} SomesMembers(os: seq<Option<Policy>>, e: Policy)
    ensures e in Somes(os) <==> Some(e) in os
  {
    if os != [] {
      var init := os[..|os| - 1];
      SomesMembers(init, e);
      assert os == init + [os[|os| - 1]];
    }
  }

  /** Entries in ascending filename order. */
  predicate FilenamesSorted(es: seq<Policy>) {
    forall i, j :: 0 <= i < j < |es| ==> StrLe(es[i].info.filename, es[j].info.filename)
  }

  /** The present values, wherever they stand, are in ascending filename order. */
  predicate OptionsSorted(os: seq<Option<Policy>>) {
    forall i, j :: 0 <= i < j < |os| && os[i].Some? && os[j].Some? ==>
      StrLe(os[i].value.info.filename, os[j].value.info.filename)
  }

  /** Values present in filename order stay in filename order once the absent ones are dropped. */
  lemma {:induction false} SomesSorted(os: seq<Option<Policy>>)
    requires OptionsSorted(os)
    ensures FilenamesSorted(Somes(os))
  {
    if os != [] {
      var init := os[..|os| - 1];
      assert OptionsSorted(init) by {
        assert forall i :: 0 <= i < |init| ==> init[i] == os[i];
      }
      SomesSorted(init);
      var es0 := Somes(init);
      if os[|os| - 1].Some? {
        var e := os[|os| - 1].value;
        forall i | 0 <= i < |es0| ensures StrLe(es0[i].info.filename, e.info.filename) {
          assert es0[i] in es0;
          SomesMembers(init, es0[i]);
          var k :| 0 <= k < |init| && init[k] == Some(es0[i]);
          assert os[k] == init[k];
        }
        var es := es0 + [e];
        assert Somes(os) == es;
        forall i, j | 0 <= i < j < |es| ensures StrLe(es[i].info.filename, es[j].info.filename) {
          assert es[i] == es0[i];
          if j < |es0| {
            assert es[j] == es0[j];
          } else {
            assert es[j] == e;
          }
        }
      } else {
        assert Somes(os) == es0;
      }
    }
  }

  /** The entries of the files, in order, skipping the files whose names do not match. */
  function Entries(fs: seq<PolicyFile>, now: string): seq<Policy> {
    Somes(EntryOptions(fs, now))
  }

  /** The entry of a file carries the file's name. */
  lemma EntryFilename(f: PolicyFile, now: string)
    requires EntryOf(f, now).Some?
    ensures EntryOf(f, now).value.info.filename == f.name
  {
  }

  lemma EntriesMembers(fs: seq<PolicyFile>, now: string, e: Policy)
    ensures e in Entries(fs, now) <==> exists f :: f in fs && EntryOf(f, now) == Some(e)
  {
    var os := EntryOptions(fs, now);
    SomesMembers(os, e);
    if Some(e) in os {
      var k :| 0 <= k < |os| && os[k] == Some(e);
      EntryOptionsAt(fs, now, k);
      assert fs[k] in fs;
    }
    if exists f :: f in fs && EntryOf(f, now) == Some(e) {
      var f :| f in fs && EntryOf(f, now) == Some(e);
      var k :| 0 <= k < |fs| && fs[k] == f;
      EntryOptionsAt(fs, now, k);
      assert os[k] == Some(e);
    }
  }

  /** Entries of files in name order are in filename order. */
  lemma EntriesSorted(fs: seq<PolicyFile>, now: string)
    requires SortedByName(fs)
    ensures FilenamesSorted(Entries(fs, now))
  {
    var os := EntryOptions(fs, now);
    EntryOptionsNames(fs, now);
    assert OptionsSorted(os);
    SomesSorted(os);
  }

  // ----------------------------------------------------------- the scan

  /** `scan_existing_policies(output_dir)`. */
  function ScanSpec(dir: Directory, now: string): seq<Policy> {
    if !dir.present then []
    else
      var policyFiles := MarkdownFiles(dir.entries);
      if policyFiles == [] then [] else Entries(SortByName(policyFiles), now)
  }

  /** The files the scan walks are the markdown files of the directory. */
  lemma SortedFilesMembers(entries: seq<PolicyFile>, f: PolicyFile)
    ensures f in SortByName(MarkdownFiles(entries)) <==> f in entries && IsMarkdownName(f.name)
  {
    var policyFiles := MarkdownFiles(entries);
    SortByNameMeaning(policyFiles);
    assert f in SortByName(policyFiles) <==> f in multiset(SortByName(policyFiles));
    assert f in policyFiles <==> f in multiset(policyFiles);
    MarkdownFilesMembers(entries, f);
  }

  /**
   * The scan has one entry for each existing markdown file whose name
   * matches, and no other.
   */
  lemma ScanMembers(dir: Directory, now: string, e: Policy)
    ensures e in ScanSpec(dir, now) <==>
            dir.present && exists f :: f in dir.entries && IsMarkdownName(f.name) && EntryOf(f, now) == Some(e)
  {
    if dir.present {
      var sorted := SortByName(MarkdownFiles(dir.entries));
      EntriesMembers(sorted, now, e);
      if e in ScanSpec(dir, now) {
        var f :| f in sorted && EntryOf(f, now) == Some(e);
        SortedFilesMembers(dir.entries, f);
      }
      if exists f :: f in dir.entries && IsMarkdownName(f.name) && EntryOf(f, now) == Some(e) {
        var f :| f in dir.entries && IsMarkdownName(f.name) && EntryOf(f, now) == Some(e);
        SortedFilesMembers(dir.entries, f);
        assert MarkdownFiles(dir.entries) != [] by {
          SortByNameMeaning(MarkdownFiles(dir.entries));
        }
      }
    }
  }

  /** The entries come in ascending filename order. */
  lemma ScanSorted(dir: Directory, now: string)
    ensures FilenamesSorted(ScanSpec(dir, now))
  {
    if dir.present {
      SortByNameMeaning(MarkdownFiles(dir.entries));
      EntriesSorted(SortByName(MarkdownFiles(dir.entries)), now);
    }
  }

  /** A missing directory, or one without markdown files, scans to nothing. */
  lemma ScanNothing(dir: Directory, now: string)
    requires !dir.present || forall f :: f in dir.entries ==> !IsMarkdownName(f.name)
    ensures ScanSpec(dir, now) == []
  {
    if dir.present && MarkdownFiles(dir.entries) != [] {
      var f := MarkdownFiles(dir.entries)[0];
      MarkdownFilesMembers(dir.entries, f);
    }
  }

  /** The scanning loop: each sorted file either is skipped or appends its entry. */
  method ScanExistingPolicies(dir: Directory, now: string) returns (metadataList: seq<Policy>)
    ensures metadataList == ScanSpec(dir, now)
  {
    if !dir.present {
      return [];
    }
    var policyFiles := MarkdownFiles(dir.entries);
    if |policyFiles| == 0 {
      return [];
    }
    var sorted := SortByName(policyFiles);
    metadataList := [];
    var i := 0;
    while i < |sorted|
      invariant 0 <= i <= |sorted|
      invariant metadataList == Entries(sorted[..i], now)
    {
      assert sorted[..i + 1][..i] == sorted[..i];
      var entry := EntryOf(sorted[i], now);
      assert (EntryOptions(sorted[..i], now) + [entry])[..i] == EntryOptions(sorted[..i], now);
      if entry.Some? {
        metadataList := metadataList + [entry.value];
      }
      i := i + 1;
    }
    assert sorted[..i] == sorted;
  }
}
