/**
 * The part of Python 3.12's `urllib.parse` that the spider relies on:
 * `urljoin(base, url)` with the parsing (`urlsplit`, `urlparse`) and
 * reassembly (`urlunsplit`, `urlunparse`) it is built from.
 */
module UrlParsing {
  import opened Text

  /** The components of `urlparse`; `urlsplit` leaves `params` empty. */
  datatype Parts = Parts(scheme: string, netloc: string, path: string, params: string, query: string, fragment: string)

  /** `uses_relative`: the schemes `urljoin` resolves against a base. */
  function UsesRelative(): set<string> {
    {"", "ftp", "http", "gopher", "nntp", "imap", "wais", "file", "https", "shttp", "mms",
     "prospero", "rtsp", "rtsps", "rtspu", "sftp", "svn", "svn+ssh", "ws", "wss"}
  }

  /** `uses_netloc`: the schemes written with a `//` authority. */
  function UsesNetloc(): set<string> {
    {"", "ftp", "http", "gopher", "nntp", "telnet", "imap", "wais", "file", "mms", "https", "shttp",
     "snews", "prospero", "rtsp", "rtsps", "rtspu", "rsync", "svn", "svn+ssh", "sftp", "nfs", "git",
     "git+ssh", "ws", "wss", "itms-services"}
  }

  /** `uses_params`: the schemes whose last path segment may carry `;params`. */
  function UsesParams(): set<string> {
    {"", "ftp", "hdl", "prospero", "http", "imap", "https", "shttp", "rtsp", "rtsps", "rtspu",
     "sip", "sips", "mms", "sftp", "tel"}
  }

  // --------------------------------------------------------------- cleaning

  /** A C0 control character or a space. */
  predicate IsC0OrSpace(c: char) {
    c as int <= 32
  }

  /** A tab or a line break, which `urlsplit` deletes everywhere. */
  predicate IsUnsafe(c: char) {
    c == '\t' || c == '\r' || c == '\n'
  }

  /** `s.lstrip(C0 control or space)`. */
  function LStripC0(s: string): (r: string)
    ensures |r| <= |s| && r == s[|s| - |r|..]
    ensures r == [] || !IsC0OrSpace(r[0])
    ensures forall k :: 0 <= k < |s| - |r| ==> IsC0OrSpace(s[k])
  {
    if s != [] && IsC0OrSpace(s[0]) then LStripC0(s[1..]) else s
  }

  /** `s.rstrip(C0 control or space)`. */
  function RStripC0(s: string): (r: string)
    ensures |r| <= |s| && r == s[..|r|]
    ensures r == [] || !IsC0OrSpace(r[|r| - 1])
    ensures forall k :: |r| <= k < |s| ==> IsC0OrSpace(s[k])
  {
    if s != [] && IsC0OrSpace(s[|s| - 1]) then RStripC0(s[..|s| - 1]) else s
  }

  /** `s` with every tab, carriage return and line feed removed. */
  function RemoveUnsafe(s: string): (r: string)
    ensures |r| <= |s|
    ensures forall k :: 0 <= k < |r| ==> !IsUnsafe(r[k])
  {
    if s == [] then []
    else if IsUnsafe(s[0]) then RemoveUnsafe(s[1..])
    else [s[0]] + RemoveUnsafe(s[1..])
  }

  /** A text with nothing to remove is left as it is. */
  lemma {:induction false} RemoveUnsafeClean(s: string)
    requires forall k :: 0 <= k < |s| ==> !IsUnsafe(s[k])
    ensures RemoveUnsafe(s) == s
  {
    if s != [] {
      RemoveUnsafeClean(s[1..]);
    }
  }

  // --------------------------------------------------------------- splitting

  /** The characters Python allows in a URL scheme. */
  predicate IsSchemeChar(c: char) {
    IsAsciiUpper(c) || IsAsciiLower(c) || IsAsciiDigit(c) || c == '+' || c == '-' || c == '.'
  }

  /** The end of the scheme of `url` (the index of its ':'), or -1 when it has none. */
  function SchemeEnd(url: string): (i: int)
    ensures i == -1 || (0 < i < |url| && url[i] == ':')
    ensures i != -1 ==> (IsAsciiUpper(url[0]) || IsAsciiLower(url[0]))
                        && forall k :: 0 <= k < i ==> IsSchemeChar(url[k])
  {
    if ':' !in url then -1
    else
      var i := IndexOf(url, ':');
      if i > 0 && (IsAsciiUpper(url[0]) || IsAsciiLower(url[0])) && forall k :: 0 <= k < i ==> IsSchemeChar(url[k]) then i
      else -1
  }

  /** The index in `s`, at or after `from`, of the first of '/', '?', '#', or |s|. */
  function AuthorityEnd(s: string, from: nat): (e: nat)
    requires from <= |s|
    ensures from <= e <= |s|
    ensures forall k :: from <= k < e ==> s[k] != '/' && s[k] != '?' && s[k] != '#'
    ensures e == |s| || s[e] == '/' || s[e] == '?' || s[e] == '#'
    decreases |s| - from
  {
    if from == |s| || s[from] == '/' || s[from] == '?' || s[from] == '#' then from
    else AuthorityEnd(s, from + 1)
  }

  /** `s.split(c, 1)` read as a pair: the text before the first `c` and after it, or `s` and "". */
  function CutAt(s: string, c: char): (r: (string, string))
    ensures c !in s ==> r == (s, [])
    ensures c in s ==> c !in r.0 && s == r.0 + [c] + r.1
    ensures forall k :: 0 <= k < |r.0| ==> r.0[k] == s[k]
  {
    if c in s then
      var i := IndexOf(s, c);
      assert s == s[..i] + [c] + s[i + 1..];
      (s[..i], s[i + 1..])
    else (s, [])
  }

  /** The authority, path, query and fragment of what follows the scheme. */
  function SplitRest(scheme: string, rest: string): (p: Parts)
    ensures p.scheme == scheme && p.params == []
    ensures '#' !in p.path && '?' !in p.path && '#' !in p.query
    ensures forall k :: 0 <= k < |p.netloc| ==> p.netloc[k] != '/' && p.netloc[k] != '?' && p.netloc[k] != '#'
  {
    var e := if StartsWith(rest, "//") then AuthorityEnd(rest, 2) else 0;
    var netloc := if StartsWith(rest, "//") then rest[2..e] else [];
    var parts := CutAt(rest[e..], '#');
    var pq := CutAt(parts.0, '?');
    assert '#' !in pq.0 && '#' !in pq.1 by {
      if '?' in parts.0 {
        assert parts.0 == pq.0 + ['?'] + pq.1;
      }
    }
    Parts(scheme, netloc, pq.0, [], pq.1, parts.1)
  }

  /**
   * `urlsplit(url, scheme)`: the url is cleaned, a scheme is taken (and
   * lowercased) when the text before the first ':' is one, an authority
   * when the rest starts with "//", then the fragment after the first '#'
   * and the query after the first '?'.
   */
  function SplitUrl(raw: string, defaultScheme: string): (p: Parts)
    ensures p.params == []
    ensures '#' !in p.path && '?' !in p.path && '#' !in p.query
    ensures forall k :: 0 <= k < |p.netloc| ==> p.netloc[k] != '/' && p.netloc[k] != '?' && p.netloc[k] != '#'
  {
    var url := RemoveUnsafe(LStripC0(raw));
    var i := SchemeEnd(url);
    if i == -1 then SplitRest(RemoveUnsafe(RStripC0(LStripC0(defaultScheme))), url)
    else SplitRest(Lower(url[..i]), url[i + 1..])
  }

  /** Where the `;params` of a path start: the first ';' after its last '/'. */
  function ParamsStart(path: string): (i: int)
    requires ';' in path
    ensures -1 <= i < |path|
    ensures i != -1 ==> path[i] == ';' && forall k :: i < k < |path| ==> path[k] != '/'
  {
    if '/' in path then
      var f := FindFrom(path, ";", LastIndexOf(path, '/') as nat);
      if f == -1 then -1
      else
        assert OccursAt(path, ";", f) && path[f..f + 1][0] == path[f];
        f
    else IndexOf(path, ';')
  }

  /** `urlparse(url, scheme)`: `urlsplit`, then `;params` cut off the path for the schemes that have them. */
  function ParseUrl(raw: string, defaultScheme: string): (p: Parts)
    ensures var s := SplitUrl(raw, defaultScheme);
            p.scheme == s.scheme && p.netloc == s.netloc && p.query == s.query && p.fragment == s.fragment
    ensures var s := SplitUrl(raw, defaultScheme);
            ';' !in s.path ==> p.path == s.path && p.params == []
  {
    var s := SplitUrl(raw, defaultScheme);
    if s.scheme in UsesParams() && ';' in s.path then
      var i := ParamsStart(s.path);
      if i == -1 then s else s.(path := s.path[..i], params := s.path[i + 1..])
    else s
  }

  // ------------------------------------------------------------- reassembly

  /**
   * `urlunsplit`: the authority after "//" (a root added to a path that
   * lacks one), the scheme before ':', and the query and fragment only when
   * they are not empty.
   */
  function UnsplitUrl(scheme: string, netloc: string, path: string, query: string, fragment: string): (r: string)
  {
    var u1 :=
      if netloc != [] then "//" + netloc + Rooted(path)
      else if StartsWith(path, "//") then "//" + path
      else if scheme != [] && scheme in UsesNetloc() && (path == [] || path[0] == '/') then "//" + path
      else path;
    var u2 := if scheme != [] then scheme + ":" + u1 else u1;
    var u3 := if query != [] then u2 + "?" + query else u2;
    if fragment != [] then u3 + "#" + fragment else u3
  }

  /** A non-empty path that does not start from the root, with a '/' put in front. */
  function Rooted(path: string): (r: string)
    ensures path == [] || path[0] == '/' ==> r == path
    ensures r == [] || r[0] == '/'
  {
    if path != [] && path[0] != '/' then "/" + path else path
  }

  /** `urlunparse`: the params, when there are any, after a ';' at the end of the path. */
  function UnparseUrl(p: Parts): string {
    UnsplitUrl(p.scheme, p.netloc, if p.params != [] then p.path + ";" + p.params else p.path, p.query, p.fragment)
  }

  // --------------------------------------------------------- dot segments

  predicate IsDotSegment(seg: string) {
    seg == "." || seg == ".."
  }

  /** One step of the resolution loop: ".." drops the last kept segment, "." is skipped. */
  function ResolveStep(kept: seq<string>, seg: string): seq<string> {
    if seg == ".." then (if kept == [] then [] else kept[..|kept| - 1])
    else if seg == "." then kept
    else kept + [seg]
  }

  /** The resolution loop of `urljoin` over `segments`, from the first to the last. */
  function Resolve(segments: seq<string>): (r: seq<string>)
    ensures |r| <= |segments|
    ensures forall k :: 0 <= k < |r| ==> !IsDotSegment(r[k])
  {
    if segments == [] then []
    else ResolveStep(Resolve(segments[..|segments| - 1]), segments[|segments| - 1])
  }

  /** Without dot segments the loop keeps every segment. */
  lemma {:induction false} ResolveNoDots(segments: seq<string>)
    requires forall k :: 0 <= k < |segments| ==> !IsDotSegment(segments[k])
    ensures Resolve(segments) == segments
  {
    if segments != [] {
      ResolveNoDots(segments[..|segments| - 1]);
      assert segments == segments[..|segments| - 1] + [segments[|segments| - 1]];
    }
  }

  /** The middle of `segments` without its empty segments (the first and last stay). */
  function FilterMiddle(segments: seq<string>): seq<string> {
    if |segments| < 2 then segments
    else [segments[0]] + NonEmpty(segments[1..|segments| - 1]) + [segments[|segments| - 1]]
  }

  function NonEmpty(ss: seq<string>): (r: seq<string>)
    ensures forall k :: 0 <= k < |r| ==> r[k] != []
  {
    if ss == [] then [] else (if ss[0] == [] then [] else [ss[0]]) + NonEmpty(ss[1..])
  }

  function Last(ss: seq<string>): string {
    if ss == [] then [] else ss[|ss| - 1]
  }

  /**
   * The path `urljoin` writes for `segments`: the resolved segments joined
   * by '/', with a trailing '/' after a final dot segment, and "/" for
   * nothing at all.
   */
  function RemoveDotSegments(segments: seq<string>): (path: string)
    ensures path != []
  {
    var resolved := Resolve(segments) + (if IsDotSegment(Last(segments)) then [[]] else []);
    var joined := Join("/", resolved);
    if joined == [] then "/" else joined
  }

  /** Without dot segments, and from the root, the path is the one that was split. */
  lemma RemoveDotSegmentsNone(path: string)
    requires path != []
    requires forall k :: 0 <= k < |Split(path, '/')| ==> !IsDotSegment(Split(path, '/')[k])
    ensures RemoveDotSegments(Split(path, '/')) == path
  {
    var segments := Split(path, '/');
    ResolveNoDots(segments);
    assert !IsDotSegment(Last(segments));
    var resolved := Resolve(segments) + (if IsDotSegment(Last(segments)) then [[]] else []);
    assert resolved == segments;
    JoinSplit(path, '/');
    assert Join("/", resolved) == path;
  }

  lemma ResolveSnoc(segments: seq<string>, seg: string)
    ensures Resolve(segments + [seg]) == ResolveStep(Resolve(segments), seg)
  {
    assert (segments + [seg])[..|segments|] == segments;
  }

  /** ".." drops the segment before it, and at the end leaves a trailing '/'. */
  lemma ResolveExample()
    ensures Resolve(["", "AgendaCenter", "ViewFile", "Agenda", "..", "Minutes", "_1"])
            == ["", "AgendaCenter", "ViewFile", "Minutes", "_1"]
    ensures RemoveDotSegments(["", "AgendaCenter", ".."]) == "/"
  {
    var s0: seq<string> := [];
    ResolveSnoc(s0, "");
    assert s0 + [""] == [""];
    assert Resolve([""]) == [""];
    ResolveSnoc([""], "AgendaCenter");
    assert [""] + ["AgendaCenter"] == ["", "AgendaCenter"];
    assert Resolve(["", "AgendaCenter"]) == ["", "AgendaCenter"];
    ResolveSnoc(["", "AgendaCenter"], "ViewFile");
    assert ["", "AgendaCenter"] + ["ViewFile"] == ["", "AgendaCenter", "ViewFile"];
    ResolveSnoc(["", "AgendaCenter", "ViewFile"], "Agenda");
    assert ["", "AgendaCenter", "ViewFile"] + ["Agenda"] == ["", "AgendaCenter", "ViewFile", "Agenda"];
    ResolveSnoc(["", "AgendaCenter", "ViewFile", "Agenda"], "..");
    assert ["", "AgendaCenter", "ViewFile", "Agenda"] + [".."] == ["", "AgendaCenter", "ViewFile", "Agenda", ".."];
    assert Resolve(["", "AgendaCenter", "ViewFile", "Agenda", ".."]) == ["", "AgendaCenter", "ViewFile"];
    ResolveSnoc(["", "AgendaCenter", "ViewFile", "Agenda", ".."], "Minutes");
    assert ["", "AgendaCenter", "ViewFile", "Agenda", ".."] + ["Minutes"]
           == ["", "AgendaCenter", "ViewFile", "Agenda", "..", "Minutes"];
    ResolveSnoc(["", "AgendaCenter", "ViewFile", "Agenda", "..", "Minutes"], "_1");
    assert ["", "AgendaCenter", "ViewFile", "Agenda", "..", "Minutes"] + ["_1"]
           == ["", "AgendaCenter", "ViewFile", "Agenda", "..", "Minutes", "_1"];
    ResolveSnoc(["", "AgendaCenter"], "..");
    assert ["", "AgendaCenter"] + [".."] == ["", "AgendaCenter", ".."];
    assert Resolve(["", "AgendaCenter", ".."]) == [""];
    assert Join("/", [""] + [[]]) == "/";
  }

  // ------------------------------------------------------------------ join

  /**
   * `urljoin(base, url)`. An empty side gives the other. A url with another
   * scheme, or a scheme that is not relative, is returned as it is; one with
   * its own authority keeps it. Otherwise the url takes the base's
   * authority; an empty path takes the base's path (and its query when the
   * url has none); a path from the root replaces the base's path, and any
   * other path is appended to the base's directory. The dot segments are
   * then resolved.
   */
  function UrlJoin(base: string, url: string): string {
    if base == [] then url
    else if url == [] then base
    else
      var b := ParseUrl(base, []);
      var u := ParseUrl(url, b.scheme);
      if u.scheme != b.scheme || u.scheme !in UsesRelative() then url
      else if u.scheme in UsesNetloc() && u.netloc != [] then UnparseUrl(u)
      else
        var netloc := if u.scheme in UsesNetloc() then b.netloc else u.netloc;
        if u.path == [] && u.params == [] then
          UnparseUrl(Parts(u.scheme, netloc, b.path, b.params, if u.query == [] then b.query else u.query, u.fragment))
        else
          var baseParts := Split(b.path, '/');
          var baseDir := if Last(baseParts) != [] then baseParts[..|baseParts| - 1] else baseParts;
          var segments := if StartsWith(u.path, "/") then Split(u.path, '/')
                          else FilterMiddle(baseDir + Split(u.path, '/'));
          UnparseUrl(Parts(u.scheme, netloc, RemoveDotSegments(segments), u.params, u.query, u.fragment))
  }

  // ------------------------------------------------------- join properties

  /** A scheme as `urlsplit` recognises and leaves it: an ASCII letter, then scheme characters, none uppercase. */
  predicate IsLowerScheme(s: string) {
    s != [] && IsAsciiLower(s[0]) && forall k :: 0 <= k < |s| ==> IsSchemeChar(s[k]) && !IsAsciiUpper(s[k])
  }

  /** A path from the root (not "//") that ends before any params, query or fragment and has nothing to clean. */
  predicate IsRootPath(p: string) {
    p != [] && p[0] == '/' && !StartsWith(p, "//")
    && forall k :: 0 <= k < |p| ==> !IsUnsafe(p[k]) && p[k] != ';' && p[k] != '?' && p[k] != '#'
  }

  /** A non-empty authority with nothing to clean and no delimiter in it. */
  predicate IsAuthority(netloc: string) {
    netloc != []
    && forall k :: 0 <= k < |netloc| ==> !IsUnsafe(netloc[k]) && netloc[k] != '/' && netloc[k] != '?' && netloc[k] != '#'
  }

  /** What may follow the authority of a base: nothing, or a path, query or fragment with nothing to clean. */
  predicate IsBaseRest(rest: string) {
    (rest == [] || rest[0] == '/' || rest[0] == '?' || rest[0] == '#')
    && forall k :: 0 <= k < |rest| ==> !IsUnsafe(rest[k])
  }

  /** The base URLs the join lemmas are about: `scheme://netloc` and a path, query or fragment. */
  predicate IsHierarchicalBase(scheme: string, netloc: string, rest: string) {
    IsLowerScheme(scheme) && scheme in UsesRelative() && IsAuthority(netloc) && IsBaseRest(rest)
  }

  lemma RelativeHasNetloc(scheme: string)
    requires scheme in UsesRelative()
    ensures scheme in UsesNetloc()
  {
  }

  lemma LowerUnchanged(s: string)
    requires forall k :: 0 <= k < |s| ==> !IsAsciiUpper(s[k])
    ensures Lower(s) == s
  {
  }

  /** The authority ends at the first delimiter. */
  lemma {:induction false} AuthorityEndAt(s: string, from: nat, e: nat)
    requires from <= e <= |s|
    requires forall k :: from <= k < e ==> s[k] != '/' && s[k] != '?' && s[k] != '#'
    requires e == |s| || s[e] == '/' || s[e] == '?' || s[e] == '#'
    ensures AuthorityEnd(s, from) == e
    decreases e - from
  {
    if from < e {
      AuthorityEndAt(s, from + 1, e);
    }
  }

  lemma BaseClean(base: string, scheme: string, netloc: string, rest: string)
    requires IsLowerScheme(scheme) && IsAuthority(netloc) && IsBaseRest(rest)
    requires base == scheme + "://" + netloc + rest
    ensures RemoveUnsafe(LStripC0(base)) == base
  {
    assert base[0] == scheme[0];
    assert LStripC0(base) == base;
    forall k | 0 <= k < |base| ensures !IsUnsafe(base[k]) {
      if k < |scheme| {
        assert base[k] == scheme[k];
      } else if k < |scheme| + 3 {
      } else if k < |scheme| + 3 + |netloc| {
        assert base[k] == netloc[k - |scheme| - 3];
      } else {
        assert base[k] == rest[k - |scheme| - 3 - |netloc|];
      }
    }
    RemoveUnsafeClean(base);
  }

  lemma BaseSchemeEnd(base: string, scheme: string, after: string)
    requires IsLowerScheme(scheme) && StartsWith(after, ":") && base == scheme + after
    ensures SchemeEnd(base) == |scheme|
    ensures Lower(base[..|scheme|]) == scheme && base[|scheme| + 1..] == after[1..]
  {
    assert base[|scheme|] == ':';
    assert forall k :: 0 <= k < |scheme| ==> base[k] == scheme[k];
    IndexOfAt(base, ':', |scheme|);
    assert base[..|scheme|] == scheme;
    LowerUnchanged(scheme);
  }

  lemma SplitAuthority(after: string, netloc: string, rest: string)
    requires IsAuthority(netloc) && IsBaseRest(rest) && after == "//" + netloc + rest
    ensures StartsWith(after, "//") && AuthorityEnd(after, 2) == 2 + |netloc| && after[2..2 + |netloc|] == netloc
  {
    assert after[..2] == "//";
    AuthorityEndAt(after, 2, 2 + |netloc|);
    assert after[2..2 + |netloc|] == netloc;
  }

  /** A hierarchical base splits into its scheme and its authority. */
  lemma SplitBase(scheme: string, netloc: string, rest: string)
    requires IsLowerScheme(scheme) && IsAuthority(netloc) && IsBaseRest(rest)
    ensures var b := SplitUrl(scheme + "://" + netloc + rest, []);
            b.scheme == scheme && b.netloc == netloc
  {
    var base := scheme + "://" + netloc + rest;
    var after := ":" + "//" + netloc + rest;
    assert base == scheme + after && after[1..] == "//" + netloc + rest;
    SplitAuthority(after[1..], netloc, rest);
    BaseSchemeEnd(base, scheme, after);
    BaseClean(base, scheme, netloc, rest);
  }

  lemma HrefClean(href: string)
    requires href != [] && href[0] == '/' && forall k :: 0 <= k < |href| ==> !IsUnsafe(href[k])
    ensures RemoveUnsafe(LStripC0(href)) == href && SchemeEnd(href) == -1
  {
    assert LStripC0(href) == href;
    RemoveUnsafeClean(href);
  }

  lemma SchemeClean(scheme: string)
    requires IsLowerScheme(scheme)
    ensures RemoveUnsafe(RStripC0(LStripC0(scheme))) == scheme
  {
    assert LStripC0(scheme) == scheme;
    assert IsSchemeChar(scheme[|scheme| - 1]);
    assert RStripC0(scheme) == scheme;
    RemoveUnsafeClean(scheme);
  }

  /** What may follow a root path: nothing, an empty fragment marker, or a query without a fragment. */
  predicate IsQueryTail(tail: string) {
    (tail == [] || tail == "#" || (tail[0] == '?' && '#' !in tail))
    && forall k :: 0 <= k < |tail| ==> !IsUnsafe(tail[k])
  }

  /** The query a tail carries: what follows its '?'. */
  function QueryOf(tail: string): string {
    if tail != [] && tail[0] == '?' then tail[1..] else []
  }

  lemma SplitRootPath(scheme: string, path: string, tail: string, href: string)
    requires IsRootPath(path) && IsQueryTail(tail) && href == path + tail
    ensures SplitRest(scheme, href) == Parts(scheme, [], path, [], QueryOf(tail), [])
  {
    assert !StartsWith(href, "//") by {
      if |href| >= 2 {
        if |path| == 1 {
          assert href[1] == tail[0];
        } else {
          assert href[..2] == path[..2];
        }
      }
    }
    assert href[0..] == href;
    if tail == [] {
      assert href == path;
    } else if tail == "#" {
      IndexOfAt(href, '#', |path|);
      assert href[..|path|] == path;
      assert '?' !in path;
    } else {
      assert '#' !in href;
      IndexOfAt(href, '?', |path|);
      assert href[..|path|] == path && href[|path| + 1..] == tail[1..];
    }
  }

  /** A root path parses, against any scheme found by `SplitBase`, into that path and the tail's query. */
  lemma ParsePath(scheme: string, path: string, tail: string)
    requires IsLowerScheme(scheme) && IsRootPath(path) && IsQueryTail(tail)
    ensures ParseUrl(path + tail, scheme) == Parts(scheme, [], path, [], QueryOf(tail), [])
  {
    var href := path + tail;
    assert forall k :: 0 <= k < |href| ==> !IsUnsafe(href[k]) by {
      forall k | 0 <= k < |href| ensures !IsUnsafe(href[k]) {
        if k >= |path| {
          assert href[k] == tail[k - |path|];
        }
      }
    }
    HrefClean(href);
    SchemeClean(scheme);
    SplitRootPath(scheme, path, tail, href);
    assert SplitUrl(href, scheme) == Parts(scheme, [], path, [], QueryOf(tail), []);
  }

  /**
   * Against a hierarchical base, a path from the root keeps the base's
   * scheme and authority and has its dot segments resolved; a query after
   * it is kept, and an empty query or fragment marker is dropped.
   */
  lemma UrlJoinRootPath(scheme: string, netloc: string, rest: string, path: string, tail: string)
    requires IsHierarchicalBase(scheme, netloc, rest) && IsRootPath(path) && IsQueryTail(tail)
    ensures UrlJoin(scheme + "://" + netloc + rest, path + tail)
            == scheme + "://" + netloc + Rooted(RemoveDotSegments(Split(path, '/')))
               + (if QueryOf(tail) == [] then [] else "?" + QueryOf(tail))
  {
    var base := scheme + "://" + netloc + rest;
    SplitBase(scheme, netloc, rest);
    ParsePath(scheme, path, tail);
    RelativeHasNetloc(scheme);
    JoinFromRoot(base, path + tail, scheme, netloc, path, QueryOf(tail));
    UnsplitWithNetloc(scheme, netloc, RemoveDotSegments(Split(path, '/')), QueryOf(tail));
  }

  /** The join of a url that parsed into a path from the root and a query, against a base with that scheme. */
  lemma JoinFromRoot(base: string, url: string, scheme: string, netloc: string, path: string, query: string)
    requires base != [] && url != [] && scheme in UsesRelative() && scheme in UsesNetloc()
    requires ParseUrl(base, []).scheme == scheme && ParseUrl(base, []).netloc == netloc
    requires ParseUrl(url, scheme) == Parts(scheme, [], path, [], query, []) && path != [] && path[0] == '/'
    ensures UrlJoin(base, url) == UnparseUrl(Parts(scheme, netloc, RemoveDotSegments(Split(path, '/')), [], query, []))
  {
    assert StartsWith(path, "/");
  }

  lemma UnsplitWithNetloc(scheme: string, netloc: string, path: string, query: string)
    requires scheme != [] && netloc != []
    ensures UnparseUrl(Parts(scheme, netloc, path, [], query, []))
            == scheme + "://" + netloc + Rooted(path) + (if query == [] then [] else "?" + query)
  {
  }

  /** A path from the root without dot segments is taken over as it is, and so is a query after it. */
  lemma UrlJoinPlainPath(scheme: string, netloc: string, rest: string, path: string, tail: string)
    requires IsHierarchicalBase(scheme, netloc, rest) && IsRootPath(path) && IsQueryTail(tail)
    requires forall k :: 0 <= k < |Split(path, '/')| ==> !IsDotSegment(Split(path, '/')[k])
    ensures UrlJoin(scheme + "://" + netloc + rest, path + tail)
            == scheme + "://" + netloc + path + (if QueryOf(tail) == [] then [] else "?" + QueryOf(tail))
  {
    UrlJoinRootPath(scheme, netloc, rest, path, tail);
    RemoveDotSegmentsNone(path);
  }

  /** A scheme that `urlsplit` finds is lowercase. */
  lemma SplitSchemeIsLower(raw: string)
    ensures var sc := SplitUrl(raw, []).scheme;
            sc == [] || IsLowerScheme(sc)
  {
    var url := RemoveUnsafe(LStripC0(raw));
    var i := SchemeEnd(url);
    if i == -1 {
      assert LStripC0([]) == [] && RStripC0([]) == [] && RemoveUnsafe([]) == [];
    } else {
      var sc := Lower(url[..i]);
      assert SplitUrl(raw, []).scheme == sc;
      forall k | 0 <= k < |sc| ensures IsSchemeChar(sc[k]) && !IsAsciiUpper(sc[k]) {
        assert sc[k] == LowerChar(url[k]);
      }
      assert sc[0] == LowerChar(url[0]);
    }
  }

  /**
   * Against a base whose scheme is not one of the relative ones (a `mailto:`
   * or `data:` URL, say), a path from the root is returned as it is.
   */
  lemma UrlJoinNonRelative(base: string, path: string, tail: string)
    requires base != [] && ParseUrl(base, []).scheme !in UsesRelative()
    requires IsRootPath(path) && IsQueryTail(tail)
    ensures UrlJoin(base, path + tail) == path + tail
  {
    SplitSchemeIsLower(base);
    ParsePath(ParseUrl(base, []).scheme, path, tail);
  }
}
