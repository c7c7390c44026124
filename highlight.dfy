/**
 * Source highlighting for the requirements extracted from a document: each
 * requirement statement is located in the document text, first by exact
 * search and then by its first 50 characters, and the requirements that are
 * found become highlight spans.
 */
module SourceHighlight {
  import opened Text
  import opened PolicySchema

  /** The `{"start": …, "end": …}` dictionary; `(-1, -1)` when nothing is found. */
  datatype Span = Span(start: int, end: int)

  /** The length of the prefix tried when the exact statement is not found. */
  function SnippetLength(): nat { 50 }

  /** `statement[:50]`. */
  function Snippet(statement: string): (p: string)
    ensures |p| <= SnippetLength() && StartsWith(statement, p)
    ensures |statement| <= SnippetLength() ==> p == statement
  {
    if |statement| <= SnippetLength() then statement else statement[..SnippetLength()]
  }

  /**
   * `locate_source_indices(full_text, statement)`. The first occurrence of
   * the statement if it has one; otherwise the first occurrence of its
   * snippet, with the end estimated from the full statement's length;
   * otherwise `(-1, -1)`.
   */
  function LocateSourceIndices(fullText: string, statement: string): (r: Span)
    ensures Contains(fullText, statement) ==>
              OccursAt(fullText, statement, r.start) && r.end == r.start + |statement|
              && forall k :: 0 <= k < r.start ==> !OccursAt(fullText, statement, k)
    ensures !Contains(fullText, statement) && Contains(fullText, Snippet(statement)) ==>
              OccursAt(fullText, Snippet(statement), r.start) && r.end == r.start + |statement|
              && forall k :: 0 <= k < r.start ==> !OccursAt(fullText, Snippet(statement), k)
    ensures !Contains(fullText, statement) && !Contains(fullText, Snippet(statement)) ==> r == Span(-1, -1)
  {
    var start := Find(fullText, statement);
    if start != -1 then Span(start, start + |statement|)
    else
      var fallback := Find(fullText, Snippet(statement));
      if fallback != -1 then Span(fallback, fallback + |statement|)
      else Span(-1, -1)
  }

  /** An occurrence of a string is an occurrence of each of its prefixes. */
  lemma ContainsPrefix(s: string, t: string, p: string)
    requires Contains(s, t) && StartsWith(t, p)
    ensures Contains(s, p)
  {
    var k :| 0 <= k <= |s| && OccursAt(s, t, k);
    assert s[k..k + |p|] == s[k..k + |t|][..|p|];
    assert OccursAt(s, p, k);
  }

  /**
   * A statement is located exactly when its snippet occurs in the text; a
   * located span starts at an occurrence and extends by the statement's
   * length, and an exact match lies within the text.
   */
  lemma LocateFoundIff(fullText: string, statement: string)
    ensures var r := LocateSourceIndices(fullText, statement);
            (r.start != -1 <==> Contains(fullText, Snippet(statement)))
            && (r.start == -1 <==> r.end == -1)
            && (r.start != -1 ==> 0 <= r.start && r.end == r.start + |statement|)
            && (Contains(fullText, statement) ==> r.end <= |fullText|)
  {
    if Contains(fullText, statement) {
      ContainsPrefix(fullText, statement, Snippet(statement));
    }
  }

  /** For a statement of at most 50 characters the fallback adds nothing: found iff it is a substring. */
  lemma LocateShortStatement(fullText: string, statement: string)
    requires |statement| <= SnippetLength()
    ensures var r := LocateSourceIndices(fullText, statement);
            (r.start != -1 <==> Contains(fullText, statement))
            && (r.start != -1 ==> OccursAt(fullText, statement, r.start) && r.end == r.start + |statement|)
  {
    LocateFoundIff(fullText, statement);
  }

  /** The empty statement is found at the very start, as an empty span. */
  lemma LocateEmptyStatement(fullText: string)
    ensures LocateSourceIndices(fullText, "") == Span(0, 0)
  {
    assert OccursAt(fullText, "", 0);
  }

  /**
   * The estimated end can run past the text: a text of 50 characters or
   * more, followed in the statement by anything further, is found by its
   * snippet at 0 with an end beyond the text's own length.
   */
  lemma LocateEndMayOverrun(fullText: string, extra: string)
    requires |fullText| == SnippetLength() && extra != []
    ensures var r := LocateSourceIndices(fullText, fullText + extra);
            r.start == 0 && r.end == |fullText| + |extra| && r.end > |fullText|
  {
    var statement := fullText + extra;
    assert Snippet(statement) == fullText;
    assert OccursAt(fullText, fullText, 0);
  }

  /** One highlight: the requirement's id and the span of its statement. */
  datatype Highlight = Highlight(id: string, start: int, end: int)

  /** The highlight of a requirement, if its statement is located. */
  function HighlightOf(rawText: string, req: Requirement): (h: Highlight)
    ensures h.id == req.requirementId
    ensures Contains(rawText, req.statement) ==>
              OccursAt(rawText, req.statement, h.start) && h.end == h.start + |req.statement|
    ensures h.start != -1 ==> 0 <= h.start <= |rawText| && h.end == h.start + |req.statement|
    ensures h.start == -1 ==> h.end == -1
  {
    var loc := LocateSourceIndices(rawText, req.statement);
    Highlight(req.requirementId, loc.start, loc.end)
  }

  /** Whether the requirement's statement is located in the text. */
  predicate Located(rawText: string, req: Requirement) {
    LocateSourceIndices(rawText, req.statement).start != -1
  }

  /** The highlights of the requirements, in requirement order, skipping those not located. */
  function Highlights(rawText: string, reqs: seq<Requirement>): (hs: seq<Highlight>)
    ensures |hs| <= |reqs|
  {
    if reqs == [] then []
    else
      var init := Highlights(rawText, reqs[..|reqs| - 1]);
      var last := reqs[|reqs| - 1];
      if Located(rawText, last) then init + [HighlightOf(rawText, last)] else init
  }

  /** Every located requirement contributes its highlight. */
  lemma {:induction false} HighlightsIncludeLocated(rawText: string, reqs: seq<Requirement>, k: nat)
    requires k < |reqs| && Located(rawText, reqs[k])
    ensures HighlightOf(rawText, reqs[k]) in Highlights(rawText, reqs)
  {
    var init := reqs[..|reqs| - 1];
    if k < |init| {
      assert init[k] == reqs[k];
      HighlightsIncludeLocated(rawText, init, k);
    }
  }

  /** Every highlight comes from a located requirement, at a position no earlier than its own. */
  lemma {:induction false} HighlightOrigin(rawText: string, reqs: seq<Requirement>, i: nat) returns (k: nat)
    requires i < |Highlights(rawText, reqs)|
    ensures i <= k < |reqs| && Located(rawText, reqs[k])
    ensures Highlights(rawText, reqs)[i] == HighlightOf(rawText, reqs[k])
  {
    var init := reqs[..|reqs| - 1];
    var hs := Highlights(rawText, init);
    if i < |hs| {
      k := HighlightOrigin(rawText, init, i);
      assert init[k] == reqs[k];
    } else {
      k := |reqs| - 1;
    }
  }

  /**
   * The highlights are exactly the located requirements, each tagged with
   * its id and the span found for its statement.
   */
  lemma HighlightsMembers(rawText: string, reqs: seq<Requirement>, h: Highlight)
    ensures h in Highlights(rawText, reqs) <==>
            exists k :: 0 <= k < |reqs| && Located(rawText, reqs[k]) && h == HighlightOf(rawText, reqs[k])
  {
    var hs := Highlights(rawText, reqs);
    if h in hs {
      var i :| 0 <= i < |hs| && hs[i] == h;
      var k := HighlightOrigin(rawText, reqs, i);
    }
    if exists k :: 0 <= k < |reqs| && Located(rawText, reqs[k]) && h == HighlightOf(rawText, reqs[k]) {
      var k :| 0 <= k < |reqs| && Located(rawText, reqs[k]) && h == HighlightOf(rawText, reqs[k]);
      HighlightsIncludeLocated(rawText, reqs, k);
    }
  }

  /** Every highlight starts at a real position. */
  lemma {:induction false} HighlightsStartFound(rawText: string, reqs: seq<Requirement>)
    ensures forall i :: 0 <= i < |Highlights(rawText, reqs)| ==> Highlights(rawText, reqs)[i].start >= 0
  {
    if reqs != [] {
      HighlightsStartFound(rawText, reqs[..|reqs| - 1]);
      LocateFoundIff(rawText, reqs[|reqs| - 1].statement);
    }
  }

  /** When every requirement is located there is one highlight per requirement, position by position. */
  lemma {:induction false} HighlightsAllLocated(rawText: string, reqs: seq<Requirement>)
    requires forall k :: 0 <= k < |reqs| ==> Located(rawText, reqs[k])
    ensures |Highlights(rawText, reqs)| == |reqs|
    ensures forall k :: 0 <= k < |reqs| ==> Highlights(rawText, reqs)[k] == HighlightOf(rawText, reqs[k])
  {
    if reqs != [] {
      var init := reqs[..|reqs| - 1];
      assert forall k :: 0 <= k < |init| ==> init[k] == reqs[k];
      HighlightsAllLocated(rawText, init);
    }
  }

  /** The highlight-building loop of the extraction endpoint. */
  method BuildHighlights(rawText: string, reqs: seq<Requirement>) returns (highlights: seq<Highlight>)
    ensures highlights == Highlights(rawText, reqs)
  {
    highlights := [];
    var i := 0;
    while i < |reqs|
      invariant 0 <= i <= |reqs|
      invariant highlights == Highlights(rawText, reqs[..i])
    {
      assert reqs[..i + 1][..i] == reqs[..i];
      var loc := LocateSourceIndices(rawText, reqs[i].statement);
      if loc.start != -1 {
        highlights := highlights + [Highlight(reqs[i].requirementId, loc.start, loc.end)];
      }
      i := i + 1;
    }
    assert reqs[..i] == reqs;
  }
}
