/**
 * The CivicPlus AgendaCenter spider: from a parsed AgendaCenter page it
 * yields one item per meeting document link, with the committee name, the
 * meeting title and date, the kind of document and its absolute URL.
 *
 * The page is given already parsed, as the values the CSS selectors of the
 * spider read: committee divisions with their header texts and table rows,
 * rows with their paragraph text and anchors.
 */
module CivicSpider {
  import opened Wrappers
  import opened Text
  import opened UrlParsing

  // ------------------------------------------------------------------- page

  /** An `<a>` element: its `href` and `name` attributes and its first text node. */
  datatype Anchor = Anchor(href: Option<string>, name: Option<string>, text: Option<string>)

  /** A `tbody tr` row: the first `p` text node and the anchors, in document order. */
  datatype Row = Row(paragraphText: Option<string>, anchors: seq<Anchor>)

  /**
   * A `div`: its `id`, the first `h2`/`h3` text node, the texts of the
   * descendants of its `h2`/`h3` elements, and its table rows.
   */
  datatype Div = Div(id: Option<string>, headerText: Option<string>, headerInnerTexts: seq<string>, rows: seq<Row>)

  /** One yielded item. */
  datatype Item = Item(
    sourceType: string,
    committeeName: string,
    meetingDate: Option<string>,
    title: string,
    assetType: string,
    url: string,
    scrapedAt: string)

  // ---------------------------------------------------------------- spider

  /** The listing used when no `place_url` is given. */
  function DefaultBaseUrl(): string { "https://" + DefaultHost() + "/AgendaCenter" }

  /** The host of the default listing. */
  function DefaultHost(): string { "example.com" }

  /** `CivicPlusSpider(place_url)`: the page it starts from. */
  function BaseUrl(placeUrl: Option<string>): (r: string)
    ensures placeUrl.Some? && placeUrl.value != "" ==> r == placeUrl.value
    ensures placeUrl.None? || placeUrl.value == "" ==> r == DefaultBaseUrl()
    ensures r != ""
  {
    if placeUrl.Some? && placeUrl.value != "" then placeUrl.value else DefaultBaseUrl()
  }

  // ------------------------------------------------------------- committee

  /**
   * The committee name: the stripped first header text; when that is
   * missing or empty, the joined texts inside the headers; when those are
   * empty too, "Unknown Committee".
   */
  function CommitteeName(div: Div): (name: string)
    ensures div.headerText.Some? && div.headerText.value != "" ==> name == Strip(div.headerText.value)
    ensures (div.headerText.None? || div.headerText.value == "") && Concat(div.headerInnerTexts) != "" ==>
              name == Strip(Concat(div.headerInnerTexts))
    ensures (div.headerText.None? || div.headerText.value == "") && Concat(div.headerInnerTexts) == "" ==>
              name == "Unknown Committee"
  {
    var header := if div.headerText.Some? && div.headerText.value != "" then div.headerText.value
                  else Concat(div.headerInnerTexts);
    if header != "" then Strip(header) else "Unknown Committee"
  }

  /** A header made only of whitespace is truthy, so it gives an empty name rather than the fallback. */
  lemma CommitteeNameWhitespaceHeader(div: Div)
    requires div.headerText.Some? && div.headerText.value != ""
    requires forall k :: 0 <= k < |div.headerText.value| ==> IsWhitespace(div.headerText.value[k])
    ensures CommitteeName(div) == ""
  {
    TrimStartAllSpace(div.headerText.value);
  }

  /** A committee name never carries surrounding whitespace. */
  lemma CommitteeNameStripped(div: Div)
    ensures var name := CommitteeName(div);
            name == [] || (!IsWhitespace(name[0]) && !IsWhitespace(name[|name| - 1]))
  {
    var name := CommitteeName(div);
    var header := if div.headerText.Some? && div.headerText.value != "" then div.headerText.value
                  else Concat(div.headerInnerTexts);
    var _, _ := StripMeaning(header);
    if name == "Unknown Committee" {
      assert name[0] == 'U' && name[|name| - 1] == 'e';
    }
  }

  /** The meeting title: the stripped first paragraph text, or "". */
  function MeetingTitle(row: Row): (title: string)
    ensures row.paragraphText.None? ==> title == ""
    ensures row.paragraphText.Some? ==> title == Strip(row.paragraphText.value)
  {
    Strip(if row.paragraphText.Some? then row.paragraphText.value else "")
  }

  // ------------------------------------------------------------ anchor date

  /** The name of the first anchor that has one: `row.css("a::attr(name)").get()`. */
  function AnchorName(anchors: seq<Anchor>): (r: Option<string>)
    ensures r.Some? ==> exists k :: 0 <= k < |anchors| && anchors[k].name == r
    ensures r.None? ==> forall k :: 0 <= k < |anchors| ==> anchors[k].name.None?
  {
    if anchors == [] then None
    else if anchors[0].name.Some? then anchors[0].name
    else
      var r := AnchorName(anchors[1..]);
      assert forall k :: 1 <= k < |anchors| ==> anchors[k] == anchors[1..][k - 1];
      r
  }

  /** The pattern `_(\d{2})(\d{2})(\d{4})` matches at `k`. */
  predicate DateAt(s: string, k: int) {
    0 <= k && k + 9 <= |s| && s[k] == '_' && forall j :: k + 1 <= j < k + 9 ==> IsAsciiDigit(s[j])
  }

  /** `re.search`: the leftmost match at or after `from`, or -1. */
  function FirstDateFrom(s: string, from: nat): (k: int)
    requires from <= |s|
    decreases |s| - from
    ensures k == -1 || (from <= k && DateAt(s, k))
  {
    if from + 9 > |s| then -1
    else if DateAt(s, from) then from
    else FirstDateFrom(s, from + 1)
  }

  /** The search finds the leftmost match: none before it, and none at all when it gives -1. */
  lemma {:induction false} FirstDateFromLeftmost(s: string, from: nat)
    requires from <= |s|
    decreases |s| - from
    ensures var k := FirstDateFrom(s, from);
            (k == -1 ==> forall j :: from <= j ==> !DateAt(s, j))
            && (k != -1 ==> forall j :: from <= j < k ==> !DateAt(s, j))
  {
    if from + 9 <= |s| && !DateAt(s, from) {
      FirstDateFromLeftmost(s, from + 1);
    }
  }

  /** Gregorian leap years. */
  predicate IsLeapYear(y: int) {
    y % 4 == 0 && (y % 100 != 0 || y % 400 == 0)
  }

  /** The number of days of month `m` (1 to 12) in year `y`. */
  function DaysInMonth(y: int, m: int): (n: int)
    requires 1 <= m <= 12
    ensures 28 <= n <= 31
  {
    if m == 2 then (if IsLeapYear(y) then 29 else 28)
    else if m == 4 || m == 6 || m == 9 || m == 11 then 30
    else 31
  }

  /**
   * The arguments `datetime(y, m, d)` accepts: every day up to the 28th of
   * every month of the years 1 to 9999, and February 29th in leap years only.
   */
  predicate ValidDate(y: int, m: int, d: int): (r: bool)
    ensures r ==> 1 <= y <= 9999 && 1 <= m <= 12 && 1 <= d <= 31
    ensures 1 <= y <= 9999 && 1 <= m <= 12 && 1 <= d <= 28 ==> r
    ensures m == 2 && d == 29 && 1 <= y <= 9999 ==> (r <==> IsLeapYear(y))
    ensures m == 2 ==> (r ==> d <= 29)
  {
    1 <= y <= 9999 && 1 <= m <= 12 && 1 <= d <= DaysInMonth(y, m)
  }

  /**
   * `strftime("%Y-%m-%d")`: the year unpadded, month and day on two digits;
   * for a month and day below 100 the three fields read back as the
   * numbers.
   */
  function FormatDate(y: nat, m: nat, d: nat): (r: string)
    ensures m < 100 && d < 100 ==>
              var n := |r|;
              n >= 7 && r[n - 6] == '-' && r[n - 3] == '-'
              && AllDigits(r[..n - 6]) && AllDigits(r[n - 5..n - 3]) && AllDigits(r[n - 2..])
              && DecimalValue(r[..n - 6]) == y && DecimalValue(r[n - 5..n - 3]) == m && DecimalValue(r[n - 2..]) == d
  {
    var ys, ms, ds := NatToString(y), ZeroFill(NatToString(m), 2), ZeroFill(NatToString(d), 2);
    if m < 100 && d < 100 then
      assert Pow10(2) == 100;
      ZeroFilledField(m, 2);
      ZeroFilledField(d, 2);
      NatToStringRoundTrip(y);
      DashedFields(ys, ms, ds);
      ys + "-" + ms + "-" + ds
    else ys + "-" + ms + "-" + ds
  }

  /** The three fields of `a-bb-cc` are where they were put. */
  lemma DashedFields(a: string, b: string, c: string)
    requires |b| == 2 && |c| == 2
    ensures var r := a + "-" + b + "-" + c;
            |r| == |a| + 6 && r[|a|] == '-' && r[|a| + 3] == '-'
            && r[..|a|] == a && r[|a| + 1..|a| + 3] == b && r[|a| + 4..] == c
  {
  }

  /**
   * The year, month and day of the first `_MMDDYYYY` in the anchor name,
   * when they make a real calendar date; otherwise `None`.
   */
  function AnchorDateFields(anchorName: Option<string>): (r: Option<(nat, nat, nat)>)
    ensures anchorName.None? ==> r.None?
    ensures r.Some? ==> ValidDate(r.value.0, r.value.1, r.value.2)
  {
    if anchorName.None? || anchorName.value == "" then None
    else
      var s := anchorName.value;
      var k := FirstDateFrom(s, 0);
      if k == -1 then None
      else
        var m := DecimalValue(s[k + 1..k + 3]);
        var d := DecimalValue(s[k + 3..k + 5]);
        var y := DecimalValue(s[k + 5..k + 9]);
        if ValidDate(y, m, d) then Some((y, m, d)) else None
  }

  /** The meeting date of a row: the date of the anchor name as "YYYY-MM-DD", or `None`. */
  function AnchorDate(anchorName: Option<string>): (r: Option<string>)
    ensures r.Some? <==> AnchorDateFields(anchorName).Some?
    ensures r.Some? ==> var (y, m, d) := AnchorDateFields(anchorName).value; r.value == FormatDate(y, m, d)
  {
    match AnchorDateFields(anchorName)
    case None => None
    case Some((y, m, d)) => Some(FormatDate(y, m, d))
  }

  /** A name without any `_` followed by eight digits gives no date. */
  lemma AnchorDateNoMatch(anchorName: string)
    requires forall k :: 0 <= k < |anchorName| ==> !DateAt(anchorName, k)
    ensures AnchorDateFields(Some(anchorName)).None? && AnchorDate(Some(anchorName)).None?
  {
  }

  /** Two-digit and four-digit zero-filled renderings of a number denote it. */
  lemma ZeroFilledValue(n: nat, width: nat)
    ensures var s := ZeroFill(NatToString(n), width);
            AllDigits(s) && DecimalValue(s) == n
  {
    NatToStringRoundTrip(n);
  }

  /** Digits below 10^w have at most w digits. */
  lemma {:induction false} NatToStringWidth(n: nat, w: nat)
    requires n < Pow10(w)
    ensures |NatToString(n)| <= w || (n < 10 && w == 0)
  {
    if n >= 10 {
      NatToStringWidth(n / 10, w - 1);
    }
  }

  function Pow10(w: nat): (p: nat)
    ensures p >= 1
  {
    if w == 0 then 1 else 10 * Pow10(w - 1)
  }

  /** The anchor name `_MMDDYYYY` of a date. */
  function AnchorOf(y: nat, m: nat, d: nat): string
  {
    "_" + ZeroFill(NatToString(m), 2) + ZeroFill(NatToString(d), 2) + ZeroFill(NatToString(y), 4)
  }

  /** The fields of `_` followed by two, two and four digits. */
  lemma DateFieldsAt(mm: string, dd: string, yy: string)
    requires |mm| == 2 && |dd| == 2 && |yy| == 4 && AllDigits(mm) && AllDigits(dd) && AllDigits(yy)
    ensures var s := "_" + mm + dd + yy;
            DateAt(s, 0) && s[1..3] == mm && s[3..5] == dd && s[5..9] == yy
  {
    var s := "_" + mm + dd + yy;
    assert forall j :: 1 <= j < 3 ==> s[j] == mm[j - 1];
    assert forall j :: 3 <= j < 5 ==> s[j] == dd[j - 3];
    assert forall j :: 5 <= j < 9 ==> s[j] == yy[j - 5];
    assert s[1..3] == mm;
    assert s[3..5] == dd;
    assert s[5..9] == yy;
  }

  /** A number below 10^w, zero-filled to width w, has exactly w digits and denotes the number. */
  lemma ZeroFilledField(n: nat, w: nat)
    requires 1 <= w && n < Pow10(w)
    ensures var s := ZeroFill(NatToString(n), w);
            |s| == w && AllDigits(s) && DecimalValue(s) == n
  {
    NatToStringWidth(n, w);
    ZeroFilledValue(n, w);
  }

  /** Round trip: the anchor name of a valid date is read back as that date. */
  lemma AnchorDateRoundTrip(y: nat, m: nat, d: nat)
    requires ValidDate(y, m, d)
    ensures AnchorDateFields(Some(AnchorOf(y, m, d))) == Some((y, m, d))
    ensures AnchorDate(Some(AnchorOf(y, m, d))) == Some(FormatDate(y, m, d))
  {
    assert Pow10(2) == 100 && Pow10(4) == 10000;
    ZeroFilledField(m, 2);
    ZeroFilledField(d, 2);
    ZeroFilledField(y, 4);
    AnchorDateFieldsOf(ZeroFill(NatToString(m), 2), ZeroFill(NatToString(d), 2), ZeroFill(NatToString(y), 4));
  }

  /** An anchor name that starts with `_MMDDYYYY` of a valid date gives that date. */
  lemma AnchorDateFieldsOf(mm: string, dd: string, yy: string)
    requires |mm| == 2 && |dd| == 2 && |yy| == 4 && AllDigits(mm) && AllDigits(dd) && AllDigits(yy)
    requires ValidDate(DecimalValue(yy), DecimalValue(mm), DecimalValue(dd))
    ensures AnchorDateFields(Some("_" + mm + dd + yy))
            == Some((DecimalValue(yy), DecimalValue(mm), DecimalValue(dd)))
  {
    var s := "_" + mm + dd + yy;
    DateFieldsAt(mm, dd, yy);
    assert FirstDateFrom(s, 0) == 0;
    assert DecimalValue(s[1..3]) == DecimalValue(mm);
    assert DecimalValue(s[3..5]) == DecimalValue(dd);
    assert DecimalValue(s[5..9]) == DecimalValue(yy);
  }

  /** The date of the first match only: a later valid date does not rescue an invalid first one. */
  lemma AnchorDateFirstMatchOnly(first: string, later: string)
    requires DateAt(first, 0) && later != ""
    ensures FirstDateFrom(first + later, 0) == 0
  {
    var s := first + later;
    assert s[0] == first[0];
    assert s[1..9] == first[1..9];
  }

  // ------------------------------------------------------------ asset type

  /** The kinds of document an agenda link points to. */
  datatype AssetType = AgendaPacket | Agenda | Minutes | Audio | Video | Captions | Other

  /** The string the spider yields for each kind. */
  function AssetName(t: AssetType): string
  {
    match t
    case AgendaPacket => "AgendaPacket"
    case Agenda => "Agenda"
    case Minutes => "Minutes"
    case Audio => "Audio"
    case Video => "Video"
    case Captions => "Captions"
    case Other => "Other"
  }

  /**
   * The first-match classification on the lowercased `href`: it says
   * nothing exactly when none of the words occurs, and an `href` with
   * "agenda" in it is an agenda packet or an agenda.
   */
  function HrefAssetType(lowerHref: string): (t: AssetType)
    ensures t == Other <==>
              && !Contains(lowerHref, "packet=true") && !Contains(lowerHref, "agenda_packet")
              && !Contains(lowerHref, "agenda") && !Contains(lowerHref, "minutes") && !Contains(lowerHref, "audio")
              && !Contains(lowerHref, "video") && !Contains(lowerHref, "captions")
    ensures Contains(lowerHref, "agenda") ==> t == AgendaPacket || t == Agenda
  {
    assert OccursAt("/agenda/", "agenda", 1);
    assert OccursAt("/minutes/", "minutes", 1);
    assert OccursAt("/audio/", "audio", 1);
    assert OccursAt("/video/", "video", 1);
    assert OccursAt("/captions/", "captions", 1);
    SlashedWordSubsumed(lowerHref, "/agenda/", "agenda");
    SlashedWordSubsumed(lowerHref, "/minutes/", "minutes");
    SlashedWordSubsumed(lowerHref, "/audio/", "audio");
    SlashedWordSubsumed(lowerHref, "/video/", "video");
    SlashedWordSubsumed(lowerHref, "/captions/", "captions");
    if Contains(lowerHref, "packet=true") || Contains(lowerHref, "agenda_packet") then AgendaPacket
    else if Contains(lowerHref, "/agenda/") || Contains(lowerHref, "agenda") then Agenda
    else if Contains(lowerHref, "/minutes/") || Contains(lowerHref, "minutes") then Minutes
    else if Contains(lowerHref, "/audio/") || Contains(lowerHref, "audio") then Audio
    else if Contains(lowerHref, "/video/") || Contains(lowerHref, "video") then Video
    else if Contains(lowerHref, "/captions/") || Contains(lowerHref, "captions") then Captions
    else Other
  }

  /**
   * The link-text fallback, applied only when the `href` says nothing: it
   * never gives a media type, and says nothing exactly when none of its
   * three words occurs.
   */
  function TextAssetType(linkText: string): (t: AssetType)
    ensures t != Audio && t != Video && t != Captions
    ensures t == Other <==> !Contains(linkText, "Agenda") && !Contains(linkText, "Minutes") && !Contains(linkText, "Packet")
  {
    if Contains(linkText, "Agenda") then Agenda
    else if Contains(linkText, "Minutes") then Minutes
    else if Contains(linkText, "Packet") then AgendaPacket
    else Other
  }

  /** The asset type of a link. */
  function ClassifyAsset(href: string, linkText: string): (t: AssetType)
    ensures HrefAssetType(Lower(href)) != Other ==> t == HrefAssetType(Lower(href))
    ensures HrefAssetType(Lower(href)) == Other ==> t == TextAssetType(linkText)
  {
    var t := HrefAssetType(Lower(href));
    if t == Other then TextAssetType(linkText) else t
  }

  /** The same classification by the plain words alone: each "/word/" test is subsumed by its "word" test. */
  function WordAssetType(lowerHref: string): AssetType
  {
    if Contains(lowerHref, "packet=true") || Contains(lowerHref, "agenda_packet") then AgendaPacket
    else if Contains(lowerHref, "agenda") then Agenda
    else if Contains(lowerHref, "minutes") then Minutes
    else if Contains(lowerHref, "audio") then Audio
    else if Contains(lowerHref, "video") then Video
    else if Contains(lowerHref, "captions") then Captions
    else Other
  }

  /** What occurs inside an occurring string occurs too. */
  lemma ContainsTransitive(s: string, p: string, word: string, j: nat)
    requires Contains(s, p) && OccursAt(p, word, j)
    ensures Contains(s, word)
  {
    var k :| 0 <= k <= |s| && OccursAt(s, p, k);
    forall i | 0 <= i < |word| ensures s[k + j + i] == word[i] {
      assert s[k + j + i] == s[k..k + |p|][j + i];
      assert p[j + i] == p[j..j + |word|][i];
    }
    assert s[k + j..k + j + |word|] == word;
    assert OccursAt(s, word, k + j);
  }

  /** A test for "/word/" or "word" is a test for "word". */
  lemma SlashedWordSubsumed(s: string, slashed: string, word: string)
    requires OccursAt(slashed, word, 1)
    ensures (Contains(s, slashed) || Contains(s, word)) == Contains(s, word)
  {
    if Contains(s, slashed) {
      ContainsTransitive(s, slashed, word, 1);
    }
  }

  /** The slashed tests never decide anything. */
  lemma HrefAssetTypeByWords(lowerHref: string)
    ensures HrefAssetType(lowerHref) == WordAssetType(lowerHref)
  {
    assert OccursAt("/agenda/", "agenda", 1);
    assert OccursAt("/minutes/", "minutes", 1);
    assert OccursAt("/audio/", "audio", 1);
    assert OccursAt("/video/", "video", 1);
    assert OccursAt("/captions/", "captions", 1);
    SlashedWordSubsumed(lowerHref, "/agenda/", "agenda");
    SlashedWordSubsumed(lowerHref, "/minutes/", "minutes");
    SlashedWordSubsumed(lowerHref, "/audio/", "audio");
    SlashedWordSubsumed(lowerHref, "/video/", "video");
    SlashedWordSubsumed(lowerHref, "/captions/", "captions");
  }

  /** The `href` prefix a document link is selected by. */
  function ViewFilePrefix(): string { "/AgendaCenter/ViewFile" }

  /**
   * Every selected `href` contains "agenda" once lowercased, so every
   * selected link is an agenda packet or an agenda: the minutes, audio,
   * video and captions tests and the link-text fallback are never reached.
   */
  lemma SelectedLinkIsAgenda(href: string, linkText: string)
    requires StartsWith(href, ViewFilePrefix())
    ensures ClassifyAsset(href, linkText) == AgendaPacket || ClassifyAsset(href, linkText) == Agenda
    ensures ClassifyAsset(href, linkText) == HrefAssetType(Lower(href))
  {
    ViewFileHasAgenda(href);
    HrefAgenda(Lower(href));
  }

  /** A selected `href`, lowercased, has "agenda" right after its first '/'. */
  lemma ViewFileHasAgenda(href: string)
    requires StartsWith(href, ViewFilePrefix())
    ensures OccursAt(Lower(href), "agenda", 1)
  {
    var p := ViewFilePrefix();
    assert forall j :: 1 <= j < 7 ==> href[j] == href[..|p|][j];
    assert p[1] == 'A' && p[2] == 'g' && p[3] == 'e' && p[4] == 'n' && p[5] == 'd' && p[6] == 'a';
    LowerAgenda(href);
  }

  /** "Agenda" at index 1 is "agenda" at index 1 once lowercased. */
  lemma LowerAgenda(s: string)
    requires 7 <= |s|
    requires s[1] == 'A' && s[2] == 'g' && s[3] == 'e' && s[4] == 'n' && s[5] == 'd' && s[6] == 'a'
    ensures OccursAt(Lower(s), "agenda", 1)
  {
    var lower := Lower(s);
    assert lower[1] == LowerChar('A') == 'a';
    assert lower[2] == LowerChar('g') == 'g';
    assert lower[3] == LowerChar('e') == 'e';
    assert lower[4] == LowerChar('n') == 'n';
    assert lower[5] == LowerChar('d') == 'd';
    assert lower[6] == LowerChar('a') == 'a';
    assert lower[1..7] == "agenda";
  }

  /** An `href` with "agenda" in it is an agenda packet or an agenda. */
  lemma HrefAgenda(lowerHref: string)
    requires OccursAt(lowerHref, "agenda", 1)
    ensures HrefAssetType(lowerHref) == AgendaPacket || HrefAssetType(lowerHref) == Agenda
  {
    assert Contains(lowerHref, "agenda");
  }

  /**
   * The classification the view-file comment describes: the word tests
   * read the part of a selected `href` after the fixed selector prefix,
   * the document-type segment on, so that the "AgendaCenter" every selected
   * `href` starts with no longer decides the type.
   */
  function IntendedAssetType(href: string, linkText: string): (t: AssetType)
    ensures !StartsWith(href, ViewFilePrefix()) ==> t == ClassifyAsset(href, linkText)
  {
    var tail := if StartsWith(href, ViewFilePrefix()) then href[|ViewFilePrefix()|..] else href;
    ClassifyAsset(tail, linkText)
  }

  /**
   * On a selected link, the intended classification reaches every type the
   * word tests name, and the link-text fallback when the part after the
   * prefix names none.
   */
  lemma IntendedAssetTypeReachesAll(tail: string, linkText: string)
    ensures var t := IntendedAssetType(ViewFilePrefix() + tail, linkText);
            var lower := Lower(tail);
            && (!Contains(lower, "packet=true") && !Contains(lower, "agenda_packet") && !Contains(lower, "agenda") ==>
                  && (Contains(lower, "minutes") ==> t == Minutes)
                  && (!Contains(lower, "minutes") && Contains(lower, "audio") ==> t == Audio)
                  && (!Contains(lower, "minutes") && !Contains(lower, "audio") && Contains(lower, "video") ==> t == Video)
                  && ((!Contains(lower, "minutes") && !Contains(lower, "audio") && !Contains(lower, "video")
                       && Contains(lower, "captions")) ==> t == Captions))
            && (HrefAssetType(lower) == Other ==> t == TextAssetType(linkText))
  {
    var href := ViewFilePrefix() + tail;
    assert StartsWith(href, ViewFilePrefix());
    assert href[|ViewFilePrefix()|..] == tail;
    HrefAssetTypeByWords(Lower(tail));
  }

  /**
   * A minutes document: as written it is classified as anything but
   * minutes, because the selector prefix already contains "agenda"; the
   * intended classification says minutes.
   */
  lemma MinutesLinkAsWritten(tail: string, linkText: string)
    requires Contains(Lower(tail), "minutes")
    requires !Contains(Lower(tail), "packet=true") && !Contains(Lower(tail), "agenda_packet")
    requires !Contains(Lower(tail), "agenda")
    ensures ClassifyAsset(ViewFilePrefix() + tail, linkText) != Minutes
    ensures IntendedAssetType(ViewFilePrefix() + tail, linkText) == Minutes
  {
    var href := ViewFilePrefix() + tail;
    assert href[..|ViewFilePrefix()|] == ViewFilePrefix();
    SelectedLinkIsAgenda(href, linkText);
    IntendedAssetTypeReachesAll(tail, linkText);
  }

  // ------------------------------------------------------------------- url

  /** The default listing is an https URL on the default host. */
  lemma DefaultBaseHierarchical()
    ensures IsHierarchicalBase("https", DefaultHost(), "/AgendaCenter")
    ensures DefaultBaseUrl() == "https" + "://" + DefaultHost() + "/AgendaCenter"
  {
    assert IsLowerScheme("https");
    assert "https" in UsesRelative();
    assert IsAuthority(DefaultHost());
    assert IsBaseRest("/AgendaCenter");
  }

  // ------------------------------------------------------------------ parse

  /** `div[id^="cat"]`. */
  predicate IsCommitteeDiv(div: Div) {
    div.id.Some? && StartsWith(div.id.value, "cat")
  }

  /** `a[href^="/AgendaCenter/ViewFile"]`. */
  predicate IsDocumentLink(a: Anchor) {
    a.href.Some? && StartsWith(a.href.value, ViewFilePrefix())
  }

  /** A selected link that yields an item: one whose `href` has no "PreviousVersions". */
  predicate YieldsItem(a: Anchor) {
    IsDocumentLink(a) && !Contains(a.href.value, "PreviousVersions")
  }

  /**
   * The item of one link: a civic meeting document of the row's committee,
   * date and title, always an agenda or an agenda packet, at the link's
   * `href` resolved against the listing.
   */
  function LinkItem(baseUrl: string, committee: string, date: Option<string>, title: string,
                    link: Anchor, now: string): (item: Item)
    requires IsDocumentLink(link)
    ensures item.sourceType == "civic_meeting" && item.committeeName == committee
    ensures item.meetingDate == date && item.title == title && item.scrapedAt == now
    ensures item.assetType == "Agenda" || item.assetType == "AgendaPacket"
    ensures item.url == UrlJoin(baseUrl, link.href.value)
  {
    var text := if link.text.Some? then link.text.value else "";
    SelectedLinkIsAgenda(link.href.value, text);
    Item("civic_meeting", committee, date, title, AssetName(ClassifyAsset(link.href.value, text)),
         UrlJoin(baseUrl, link.href.value), now)
  }

  /**
   * On a listing `scheme://host…`, a document link from the root without
   * dot segments gets the URL of its path and query on that host.
   */
  lemma LinkItemUrl(scheme: string, host: string, rest: string, committee: string, date: Option<string>,
                    title: string, link: Anchor, now: string, path: string, tail: string)
    requires IsHierarchicalBase(scheme, host, rest) && IsDocumentLink(link)
    requires link.href.value == path + tail && IsRootPath(path) && IsQueryTail(tail)
    requires forall k :: 0 <= k < |Split(path, '/')| ==> !IsDotSegment(Split(path, '/')[k])
    ensures LinkItem(scheme + "://" + host + rest, committee, date, title, link, now).url
            == scheme + "://" + host + path + (if QueryOf(tail) == [] then [] else "?" + QueryOf(tail))
  {
    UrlJoinPlainPath(scheme, host, rest, path, tail);
  }

  /** The items of the anchors of one row, in document order. */
  function LinkItems(baseUrl: string, committee: string, date: Option<string>, title: string,
                     anchors: seq<Anchor>, now: string): (items: seq<Item>)
    ensures |items| <= |anchors|
  {
    if anchors == [] then []
    else
      var init := LinkItems(baseUrl, committee, date, title, anchors[..|anchors| - 1], now);
      var last := anchors[|anchors| - 1];
      if YieldsItem(last) then init + [LinkItem(baseUrl, committee, date, title, last, now)] else init
  }

  /**
   * The items of one row: at most one per anchor, none when no anchor is a
   * selected link, each an agenda document of the committee with the row's
   * date and title.
   */
  function RowItems(baseUrl: string, committee: string, row: Row, now: string): (items: seq<Item>)
    ensures |items| <= |row.anchors|
    ensures (forall k :: 0 <= k < |row.anchors| ==> !YieldsItem(row.anchors[k])) ==> items == []
    ensures forall i :: 0 <= i < |items| ==>
              && items[i].sourceType == "civic_meeting" && items[i].committeeName == committee
              && items[i].meetingDate == AnchorDate(AnchorName(row.anchors)) && items[i].title == MeetingTitle(row)
              && (items[i].assetType == "Agenda" || items[i].assetType == "AgendaPacket")
  {
    var date, title := AnchorDate(AnchorName(row.anchors)), MeetingTitle(row);
    LinkItemsAll(baseUrl, committee, date, title, row.anchors, now);
    if forall k :: 0 <= k < |row.anchors| ==> !YieldsItem(row.anchors[k]) then
      LinkItemsSkipped(baseUrl, committee, date, title, row.anchors, now);
      LinkItems(baseUrl, committee, date, title, row.anchors, now)
    else
      LinkItems(baseUrl, committee, AnchorDate(AnchorName(row.anchors)), MeetingTitle(row), row.anchors, now)
  }

  /** The items of the rows of one committee, in order: agenda documents of that committee. */
  function RowsItems(baseUrl: string, committee: string, rows: seq<Row>, now: string): (items: seq<Item>)
    ensures forall i :: 0 <= i < |items| ==>
              items[i].sourceType == "civic_meeting" && items[i].committeeName == committee
              && (items[i].assetType == "Agenda" || items[i].assetType == "AgendaPacket")
  {
    if rows == [] then []
    else RowsItems(baseUrl, committee, rows[..|rows| - 1], now) + RowItems(baseUrl, committee, rows[|rows| - 1], now)
  }

  /**
   * The items of the page, committee by committee: nothing without a
   * committee div, and only civic meeting agendas.
   */
  function PageItems(baseUrl: string, divs: seq<Div>, now: string): (items: seq<Item>)
    ensures (forall k :: 0 <= k < |divs| ==> !IsCommitteeDiv(divs[k])) ==> items == []
    ensures forall i :: 0 <= i < |items| ==>
              items[i].sourceType == "civic_meeting" && (items[i].assetType == "Agenda" || items[i].assetType == "AgendaPacket")
  {
    if divs == [] then []
    else
      var init := PageItems(baseUrl, divs[..|divs| - 1], now);
      var last := divs[|divs| - 1];
      if IsCommitteeDiv(last) then init + RowsItems(baseUrl, CommitteeName(last), last.rows, now) else init
  }

  /** Every item of a row comes from one of its links that yields an item, and each such link gives one. */
  lemma {:induction false} LinkItemsOrigin(baseUrl: string, committee: string, date: Option<string>, title: string,
                                           anchors: seq<Anchor>, now: string, i: nat) returns (k: nat)
    requires i < |LinkItems(baseUrl, committee, date, title, anchors, now)|
    ensures i <= k < |anchors| && YieldsItem(anchors[k])
    ensures LinkItems(baseUrl, committee, date, title, anchors, now)[i]
            == LinkItem(baseUrl, committee, date, title, anchors[k], now)
  {
    var init := anchors[..|anchors| - 1];
    var last := anchors[|anchors| - 1];
    var initItems := LinkItems(baseUrl, committee, date, title, init, now);
    var items := LinkItems(baseUrl, committee, date, title, anchors, now);
    assert items == if YieldsItem(last) then initItems + [LinkItem(baseUrl, committee, date, title, last, now)]
                    else initItems;
    if i < |initItems| {
      k := LinkItemsOrigin(baseUrl, committee, date, title, init, now, i);
      assert init[k] == anchors[k];
      assert items[i] == initItems[i];
    } else {
      k := |anchors| - 1;
    }
  }

  /** Links with "PreviousVersions" or outside the ViewFile selection yield nothing. */
  lemma {:induction false} LinkItemsSkipped(baseUrl: string, committee: string, date: Option<string>, title: string,
                                            anchors: seq<Anchor>, now: string)
    requires forall k :: 0 <= k < |anchors| ==> !YieldsItem(anchors[k])
    ensures LinkItems(baseUrl, committee, date, title, anchors, now) == []
  {
    if anchors != [] {
      LinkItemsSkipped(baseUrl, committee, date, title, anchors[..|anchors| - 1], now);
    }
  }

  /** Every item of a row's links is an agenda document of the row's committee, date and title. */
  lemma {:induction false} LinkItemsAll(baseUrl: string, committee: string, date: Option<string>, title: string,
                                        anchors: seq<Anchor>, now: string)
    ensures forall i :: 0 <= i < |LinkItems(baseUrl, committee, date, title, anchors, now)| ==>
              var item := LinkItems(baseUrl, committee, date, title, anchors, now)[i];
              item.sourceType == "civic_meeting" && item.committeeName == committee
              && item.meetingDate == date && item.title == title
              && (item.assetType == "Agenda" || item.assetType == "AgendaPacket")
  {
    if anchors != [] {
      LinkItemsAll(baseUrl, committee, date, title, anchors[..|anchors| - 1], now);
    }
  }

  /**
   * Every item of a row is a civic meeting document of the row's committee,
   * date and title, an agenda or agenda packet, with the URL of a selected
   * link that is not a previous version.
   */
  lemma RowItemShape(baseUrl: string, committee: string, date: Option<string>, title: string,
                     anchors: seq<Anchor>, now: string, i: nat)
    requires i < |LinkItems(baseUrl, committee, date, title, anchors, now)|
    ensures var item := LinkItems(baseUrl, committee, date, title, anchors, now)[i];
            item.sourceType == "civic_meeting" && item.committeeName == committee
            && item.meetingDate == date && item.title == title && item.scrapedAt == now
            && (item.assetType == "Agenda" || item.assetType == "AgendaPacket")
            && exists k :: 0 <= k < |anchors| && YieldsItem(anchors[k]) && item.url == UrlJoin(baseUrl, anchors[k].href.value)
  {
    var k := LinkItemsOrigin(baseUrl, committee, date, title, anchors, now, i);
    var a := anchors[k];
    SelectedLinkIsAgenda(a.href.value, if a.text.Some? then a.text.value else "");
  }

  /** Taking one more anchor adds its item, if it yields one. */
  lemma LinkItemsSnoc(baseUrl: string, committee: string, date: Option<string>, title: string,
                      anchors: seq<Anchor>, l: nat, now: string)
    requires l < |anchors|
    ensures LinkItems(baseUrl, committee, date, title, anchors[..l + 1], now)
            == LinkItems(baseUrl, committee, date, title, anchors[..l], now)
               + (if YieldsItem(anchors[l]) then [LinkItem(baseUrl, committee, date, title, anchors[l], now)] else [])
  {
    assert anchors[..l + 1][..l] == anchors[..l];
  }

  /** The item of a link is built from its classification and its resolved `href`. */
  lemma LinkItemOf(baseUrl: string, committee: string, date: Option<string>, title: string, link: Anchor, now: string)
    requires IsDocumentLink(link)
    ensures LinkItem(baseUrl, committee, date, title, link, now)
            == Item("civic_meeting", committee, date, title,
                    AssetName(ClassifyAsset(link.href.value, if link.text.Some? then link.text.value else "")),
                    UrlJoin(baseUrl, link.href.value), now)
  {
  }

  /** One row: its title and date, then the link loop. */
  method ParseRow(baseUrl: string, committee: string, row: Row, now: string) returns (items: seq<Item>)
    ensures items == RowItems(baseUrl, committee, row, now)
  {
    var title := MeetingTitle(row);
    var date := AnchorDate(AnchorName(row.anchors));
    var anchors := row.anchors;
    items := [];
    var l := 0;
    while l < |anchors|
      invariant 0 <= l <= |anchors|
      invariant items == LinkItems(baseUrl, committee, date, title, anchors[..l], now)
    {
      LinkItemsSnoc(baseUrl, committee, date, title, anchors, l, now);
      var link := anchors[l];
      if IsDocumentLink(link) {
        var href := link.href.value;
        if !Contains(href, "PreviousVersions") {
          var text := if link.text.Some? then link.text.value else "";
          var assetType := ClassifyAsset(href, text);
          var fullUrl := UrlJoin(baseUrl, href);
          var item := Item("civic_meeting", committee, date, title, AssetName(assetType), fullUrl, now);
          LinkItemOf(baseUrl, committee, date, title, link, now);
          items := items + [item];
        }
      }
      l := l + 1;
    }
    assert anchors[..l] == anchors;
  }

  /** The row loop of one committee. */
  method ParseRows(baseUrl: string, committee: string, rows: seq<Row>, now: string) returns (items: seq<Item>)
    ensures items == RowsItems(baseUrl, committee, rows, now)
  {
    items := [];
    var r := 0;
    while r < |rows|
      invariant 0 <= r <= |rows|
      invariant items == RowsItems(baseUrl, committee, rows[..r], now)
    {
      assert rows[..r + 1][..r] == rows[..r];
      var rowItems := ParseRow(baseUrl, committee, rows[r], now);
      items := items + rowItems;
      r := r + 1;
    }
    assert rows[..r] == rows;
  }

  /**
   * `parse(response)`: the items of every committee division, in page order.
   * `now` stands for the scrape time of the items.
   */
  method Parse(baseUrl: string, divs: seq<Div>, now: string) returns (items: seq<Item>)
    ensures items == PageItems(baseUrl, divs, now)
  {
    items := [];
    var i := 0;
    while i < |divs|
      invariant 0 <= i <= |divs|
      invariant items == PageItems(baseUrl, divs[..i], now)
    {
      assert divs[..i + 1][..i] == divs[..i];
      var div := divs[i];
      if IsCommitteeDiv(div) {
        var committeeName := CommitteeName(div);
        var divItems := ParseRows(baseUrl, committeeName, div.rows, now);
        items := items + divItems;
      }
      i := i + 1;
    }
    assert divs[..i] == divs;
  }
}
