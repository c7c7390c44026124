/**
 * The star-schema store (`StarSchemaStorage`): a document dimension keyed by
 * document id, a fact table of atomic items keyed by item id, and an
 * append-only audit table. The transition functions on `Tables` specify the
 * SQL statements each operation issues; the class `StarSchemaStore` holds the
 * three tables as fields and its methods are proved against those functions.
 */
module StarSchemaStorage {
  import opened Wrappers
  import opened Text
  import opened JsonValue
  import opened Hashing
  import opened Shredding

  // ---------------------------------------------------------------- tables

  /** One row of `dim_documents`. Timestamps are the store's clock readings. */
  datatype Document = Document(
    docId: string,
    sourceType: string,
    title: Value,
    url: Value,
    metadata: Dict,
    fullTextBlob: Value,
    contentHash: string,
    version: nat,
    firstSeenAt: nat,
    lastExtractedAt: nat,
    createdAt: nat)

  /** One row of `audit_document_changes`. */
  datatype AuditRow = AuditRow(
    docId: string,
    changeType: string,
    oldContentHash: Option<string>,
    newContentHash: string,
    details: string)

  /** The three tables. */
  datatype Tables = Tables(
    documents: map<string, Document>,
    facts: map<string, FactRow>,
    audit: seq<AuditRow>)

  /** The arguments of one `store_entity` call; `metadata` is the caller's dict (`{}` for None). */
  datatype StoreRequest = StoreRequest(
    entityId: string,
    sourceType: string,
    sourceUrl: Value,
    rawContent: Value,
    structuredData: Dict,
    metadata: Dict)

  /** The tables after a call, and whether the shredding loop raised. */
  datatype StoreResult = StoreResult(tables: Tables, outcome: Result<(), ShredError>)

  /** What `get_entity` and `query_entities` return for one document. */
  datatype StoredEntity = StoredEntity(
    entityId: string,
    sourceType: string,
    sourceUrl: Value,
    rawContent: Value,
    structuredData: Dict,
    metadata: Dict,
    createdAt: nat)

  /** One dict of the list `retrieve_context` returns. */
  datatype ContextItem = ContextItem(
    content: Value,
    itemType: string,
    properties: Dict,
    sourceTitle: Value,
    sourceUrl: Value,
    location: Value)

  // ------------------------------------------------------ the audit trail

  /** The most recent audit row about `docId`. */
  function LastAudit(audit: seq<AuditRow>, docId: string): (r: Option<AuditRow>)
    ensures r.Some? ==> r.value in audit && r.value.docId == docId
    decreases |audit|
  {
    if audit == [] then None
    else if audit[|audit| - 1].docId == docId then Some(audit[|audit| - 1])
    else LastAudit(audit[..|audit| - 1], docId)
  }

  /** Appending a row about `docId` makes it the latest for `docId` and for no other document. */
  lemma LastAuditAppend(audit: seq<AuditRow>, row: AuditRow, docId: string)
    ensures LastAudit(audit + [row], docId) == if row.docId == docId then Some(row) else LastAudit(audit, docId)
  {
    assert (audit + [row])[..|audit|] == audit;
  }

  /** The audit row `row` is the one that produced the current version and hash of `d`. */
  predicate AuditRecords(row: AuditRow, d: Document) {
    && row.newContentHash == d.contentHash
    && ((row.changeType == "create" && d.version == 1)
        || (row.changeType == "update" && row.details == "Updated to version " + NatToString(d.version)))
  }

  /** Each document row sits under its own id, has a version of at least 1, and the latest audit row about it records its version and hash. */
  predicate DocsValid(documents: map<string, Document>, audit: seq<AuditRow>) {
    forall id :: id in documents ==>
      && documents[id].docId == id
      && documents[id].version >= 1
      && LastAudit(audit, id).Some?
      && AuditRecords(LastAudit(audit, id).value, documents[id])
  }

  /** Each fact sits under its own item id and belongs to a stored document. */
  predicate FactsValid(facts: map<string, FactRow>, documents: map<string, Document>) {
    forall k :: k in facts ==> facts[k].itemId == k && facts[k].docId in documents
  }

  /** The store's invariant. */
  predicate TablesValid(t: Tables) {
    DocsValid(t.documents, t.audit) && FactsValid(t.facts, t.documents)
  }

  /** Writing document `d` under its id together with the audit row that records it keeps the documents valid. */
  lemma WriteDocumentKeepsValid(documents: map<string, Document>, audit: seq<AuditRow>, d: Document, row: AuditRow)
    requires DocsValid(documents, audit)
    requires row.docId == d.docId && d.version >= 1 && AuditRecords(row, d)
    ensures DocsValid(documents[d.docId := d], audit + [row])
  {
    forall x | x in documents[d.docId := d]
      ensures LastAudit(audit + [row], x) == if x == d.docId then Some(row) else LastAudit(audit, x)
    {
      LastAuditAppend(audit, row, x);
    }
  }

  /** Inserting rows of a stored document keeps the facts valid. */
  lemma UpsertKeepsValid(facts: map<string, FactRow>, documents: map<string, Document>, rows: seq<FactRow>, docId: string)
    requires FactsValid(facts, documents) && docId in documents
    requires forall f :: f in rows ==> f.docId == docId
    ensures FactsValid(Upsert(facts, rows), documents)
  {
    forall k | k in Upsert(facts, rows)
      ensures Upsert(facts, rows)[k].itemId == k && Upsert(facts, rows)[k].docId in documents
    {
      UpsertLookup(facts, rows, k);
    }
  }

  // --------------------------------------------------- change detection

  /** `generate_id(raw_content)`: the id of the content's `str()`, of a text its own id. */
  function ContentHash(rawContent: Value): (h: string)
    ensures IsHexId(h)
    ensures h == GenerateId([PyStr(rawContent)])
    ensures rawContent.Str? ==> h == GenerateId([rawContent.s])
  {
    GenerateId([PyStr(rawContent)])
  }

  /** `check_document_status`: (is_new, has_changed). */
  function Status(t: Tables, docId: string, contentHash: Value): (r: (bool, bool))
    ensures !(r.0 && r.1)
    ensures r.0 <==> docId !in t.documents
    ensures r.1 <==> docId in t.documents && Str(t.documents[docId].contentHash) != contentHash
  {
    if docId !in t.documents then (true, false)
    else if Str(t.documents[docId].contentHash) != contentHash then (false, true)
    else (false, false)
  }

  // ------------------------------------------------- metadata and title

  /** A key of `structured_data` that is copied into the metadata. */
  predicate IsExtraField(k: string) {
    !IsRuleKey(k) && k != "content" && k != "paragraphs"
  }

  /** `base` updated with every entry of `sd` whose key is not in `excluded`. */
  function CopyExcept<V>(base: map<string, V>, sd: map<string, V>, excluded: set<string>): (r: map<string, V>)
    ensures forall k :: k in r <==> k in base || (k in sd && k !in excluded)
    ensures forall k :: k in r ==> r[k] == if k in sd && k !in excluded then sd[k] else base[k]
  {
    base + map k | k in sd && k !in excluded :: sd[k]
  }

  /** `lists_to_shred`: the keys of the record that the rule table names. */
  function ListsToShred(sd: Dict): (r: set<string>)
    ensures forall k :: k in r <==> k in sd && IsRuleKey(k)
  {
    set k | k in sd && IsRuleKey(k)
  }

  /** The metadata dict after the copy loop: the caller's entries, overridden by every extra field of `sd`. */
  function WithExtraFields(base: Dict, sd: Dict): (r: Dict)
    ensures forall k :: k in r <==> k in base || (k in sd && IsExtraField(k))
    ensures forall k :: k in r ==> r[k] == if k in sd && IsExtraField(k) then sd[k] else base[k]
  {
    CopyExcept(base, sd, ListsToShred(sd) + {"content", "paragraphs"})
  }

  /**
   * Metadata exclusion: a rule-table key, `content` and `paragraphs` never
   * reach the metadata from the record (whatever their value's type), and
   * every other key of the record does, with the record's value.
   */
  lemma MetadataExclusion(base: Dict, sd: Dict, k: string)
    ensures k in {"requirements", "sections", "agenda_items", "votes", "public_comments", "content", "paragraphs"} ==>
              (k in WithExtraFields(base, sd) <==> k in base)
              && (k in base ==> WithExtraFields(base, sd)[k] == base[k])
    ensures (k !in {"requirements", "sections", "agenda_items", "votes", "public_comments", "content", "paragraphs"} && k in sd) ==>
              k in WithExtraFields(base, sd) && WithExtraFields(base, sd)[k] == sd[k]
  {
    RuleKeysExactly(k);
  }

  /** `structured_data.get("title") or structured_data.get("policy_title") or "Untitled"`. */
  function Title(sd: Dict): (r: Value)
    ensures Truthy(r)
    ensures Truthy(Get(sd, "title", Null)) ==> r == sd["title"]
    ensures !Truthy(Get(sd, "title", Null)) && Truthy(Get(sd, "policy_title", Null)) ==> r == sd["policy_title"]
    ensures !Truthy(Get(sd, "title", Null)) && !Truthy(Get(sd, "policy_title", Null)) ==> r == Str("Untitled")
  {
    var title := Get(sd, "title", Null);
    var policyTitle := Get(sd, "policy_title", Null);
    if Truthy(title) then title else if Truthy(policyTitle) then policyTitle else Str("Untitled")
  }

  // ------------------------------------------------------------ the facts

  /** `DELETE FROM fact_items WHERE doc_id = ?`. */
  function RemoveDocFacts(facts: map<string, FactRow>, docId: string): (r: map<string, FactRow>)
    ensures forall k :: k in r <==> k in facts && facts[k].docId != docId
    ensures forall k :: k in r ==> r[k] == facts[k]
  {
    map k | k in facts && facts[k].docId != docId :: facts[k]
  }

  /** `INSERT OR REPLACE` of `rows` one after the other, keyed by item id. */
  function Upsert(facts: map<string, FactRow>, rows: seq<FactRow>): map<string, FactRow>
    decreases |rows|
  {
    if rows == [] then facts
    else
      var last := rows[|rows| - 1];
      Upsert(facts, rows[..|rows| - 1])[last.itemId := last]
  }

  /** The last of `rows` with item id `k`. */
  function LastWithId(rows: seq<FactRow>, k: string): (r: Option<FactRow>)
    ensures r.Some? ==> r.value in rows && r.value.itemId == k
    decreases |rows|
  {
    if rows == [] then None
    else if rows[|rows| - 1].itemId == k then Some(rows[|rows| - 1])
    else LastWithId(rows[..|rows| - 1], k)
  }

  /** The item ids of `rows`, in order. */
  function ItemIds(rows: seq<FactRow>): (ids: seq<string>)
    ensures |ids| == |rows|
    ensures forall i :: 0 <= i < |rows| ==> ids[i] == rows[i].itemId
  {
    seq(|rows|, i requires 0 <= i < |rows| => rows[i].itemId)
  }

  /** The set of item ids of `rows`. */
  function RowIds(rows: seq<FactRow>): set<string> {
    set k | k in ItemIds(rows)
  }

  /** No string occurs twice in `xs`. */
  predicate Distinct(xs: seq<string>) {
    forall i, j :: 0 <= i < j < |xs| ==> xs[i] != xs[j]
  }

  /** No two of `rows` share an item id. */
  predicate DistinctIds(rows: seq<FactRow>) {
    Distinct(ItemIds(rows))
  }

  /** `LastWithId` finds a row exactly when one has the id, and it is the one with the highest index. */
  lemma {:induction false} LastWithIdIsLast(rows: seq<FactRow>, k: string)
    ensures LastWithId(rows, k).Some? <==> k in RowIds(rows)
    ensures LastWithId(rows, k).Some? ==>
              exists i :: 0 <= i < |rows| && rows[i] == LastWithId(rows, k).value
                          && forall j :: i < j < |rows| ==> rows[j].itemId != k
    decreases |rows|
  {
    if rows != [] {
      var n := |rows| - 1;
      var init := rows[..n];
      LastWithIdIsLast(init, k);
      assert ItemIds(rows) == ItemIds(init) + [rows[n].itemId];
      if rows[n].itemId != k && LastWithId(init, k).Some? {
        var i :| 0 <= i < |init| && init[i] == LastWithId(init, k).value
                 && forall j :: i < j < |init| ==> init[j].itemId != k;
        assert rows[i] == init[i];
        forall j | i < j < |rows| ensures rows[j].itemId != k {
          if j < n { assert rows[j] == init[j]; }
        }
      }
    }
  }

  /**
   * INSERT OR REPLACE: an id ends up in the table exactly when it was there
   * or some row has it, and then it holds the LAST row with that id; ids no
   * row has keep their old row.
   */
  lemma {:induction false} UpsertLookup(facts: map<string, FactRow>, rows: seq<FactRow>, k: string)
    ensures k in Upsert(facts, rows) <==> k in facts || LastWithId(rows, k).Some?
    ensures k in Upsert(facts, rows) ==>
              Upsert(facts, rows)[k] == if LastWithId(rows, k).Some? then LastWithId(rows, k).value else facts[k]
    decreases |rows|
  {
    if rows != [] {
      UpsertLookup(facts, rows[..|rows| - 1], k);
    }
  }

  /** A sequence has at most as many distinct strings as elements, and exactly as many when none repeats. */
  lemma {:induction false} DistinctCount(xs: seq<string>)
    ensures |set x | x in xs| <= |xs|
    ensures |set x | x in xs| == |xs| <==> Distinct(xs)
    decreases |xs|
  {
    if xs != [] {
      var n := |xs| - 1;
      var init := xs[..n];
      DistinctCount(init);
      assert (set x | x in xs) == (set x | x in init) + {xs[n]} by {
        assert xs == init + [xs[n]];
      }
      if Distinct(xs) {
        assert Distinct(init) by {
          forall i, j | 0 <= i < j < |init| ensures init[i] != init[j] {
            assert init[i] == xs[i] && init[j] == xs[j];
          }
        }
        forall i | 0 <= i < n ensures init[i] != xs[n] {
          assert init[i] == xs[i];
        }
      } else if Distinct(init) {
        var i, j :| 0 <= i < j < |xs| && xs[i] == xs[j];
        forall a, b | 0 <= a < b < n ensures xs[a] != xs[b] {
          assert init[a] == xs[a] && init[b] == xs[b];
        }
        assert j == n;
        assert init[i] == xs[n];
      }
    }
  }

  /** There are at most as many ids as rows, and exactly as many when the ids are distinct. */
  lemma RowIdsCount(rows: seq<FactRow>)
    ensures |RowIds(rows)| <= |rows|
    ensures |RowIds(rows)| == |rows| <==> DistinctIds(rows)
  {
    DistinctCount(ItemIds(rows));
  }

  /** The item ids of the facts of document `docId`. */
  function DocFactIds(facts: map<string, FactRow>, docId: string): set<string> {
    set k | k in facts && facts[k].docId == docId
  }

  // ------------------------------------------------------ store_entity

  /** What the shredding loop yields for a record: its rows, or the error it raises. */
  type ShredOutcome = Result<seq<FactRow>, ShredError>

  /**
   * What `store_entity` derives from its arguments before it writes: the
   * content hash, the metadata dict after the copy loop, the title, and
   * what shredding the record yields.
   */
  datatype Prepared = Prepared(contentHash: string, metadata: Dict, title: Value, shredded: ShredOutcome)

  /** The values `store_entity` derives from a request. */
  function Prepare(req: StoreRequest): Prepared {
    Prepared(ContentHash(req.rawContent), WithExtraFields(req.metadata, req.structuredData),
             Title(req.structuredData), Shred(req.entityId, req.sourceType, req.structuredData))
  }

  /** Every row of a successful shredding belongs to the document being stored. */
  predicate RowsOfDoc(shredded: ShredOutcome, docId: string) {
    shredded.Success? ==> forall f :: f in shredded.value ==> f.docId == docId
  }

  /**
   * The document phase of `store_entity`: a new document is inserted at
   * version 1 with a 'create' audit row; changed content updates title,
   * metadata, blob and hash, bumps the version, logs an 'update' row and
   * deletes the document's facts; unchanged content only touches
   * `last_extracted_at`.
   */
  function DocumentPhase(t: Tables, req: StoreRequest, p: Prepared, now: nat): Tables {
    var id := req.entityId;
    var h := p.contentHash;
    var status := Status(t, id, Str(h));
    if status.0 then
      var d := Document(id, req.sourceType, p.title, req.sourceUrl, p.metadata, req.rawContent, h, 1, now, now, now);
      Tables(t.documents[id := d], t.facts, t.audit + [AuditRow(id, "create", None, h, "Initial extraction")])
    else if status.1 then
      var cur := t.documents[id];
      var d := cur.(title := p.title, metadata := p.metadata, fullTextBlob := req.rawContent, contentHash := h,
                    version := cur.version + 1, lastExtractedAt := now);
      var row := AuditRow(id, "update", Some(cur.contentHash), h, "Updated to version " + NatToString(cur.version + 1));
      Tables(t.documents[id := d], RemoveDocFacts(t.facts, id), t.audit + [row])
    else
      t.(documents := t.documents[id := t.documents[id].(lastExtractedAt := now)])
  }

  /** The facts phase: insert the shredded rows, or stop at the error the loop raised. */
  function Shredded(t: Tables, shredded: ShredOutcome): StoreResult {
    match shredded
    case Failure(e) => StoreResult(t, Failure(e))
    case Success(rows) => StoreResult(t.(facts := Upsert(t.facts, rows)), Success(()))
  }

  /**
   * `store_entity` with the values `p` derived from `req`: the document
   * phase, then, for a new or changed document only, the facts phase. The
   * statements run without a transaction, so an error in the shredding loop
   * leaves the document and audit writes in place.
   */
  function StoreSpec(t: Tables, req: StoreRequest, p: Prepared, now: nat): StoreResult {
    var t1 := DocumentPhase(t, req, p, now);
    if Status(t, req.entityId, Str(p.contentHash)) != (false, false) then Shredded(t1, p.shredded)
    else StoreResult(t1, Success(()))
  }

  /** The document phase keeps the invariant, and leaves a document under the stored id. */
  lemma DocumentPhaseKeepsValid(t: Tables, req: StoreRequest, p: Prepared, now: nat)
    requires TablesValid(t)
    ensures var t1 := DocumentPhase(t, req, p, now);
            TablesValid(t1) && req.entityId in t1.documents
  {
    var id := req.entityId;
    if id !in t.documents {
      var d := Document(id, req.sourceType, p.title, req.sourceUrl, p.metadata, req.rawContent, p.contentHash, 1, now, now, now);
      WriteDocumentKeepsValid(t.documents, t.audit, d, AuditRow(id, "create", None, p.contentHash, "Initial extraction"));
    } else if t.documents[id].contentHash != p.contentHash {
      ChangedDocumentKeepsValid(t, req, p, now);
    }
  }

  lemma ChangedDocumentKeepsValid(t: Tables, req: StoreRequest, p: Prepared, now: nat)
    requires TablesValid(t) && req.entityId in t.documents && t.documents[req.entityId].contentHash != p.contentHash
    ensures TablesValid(DocumentPhase(t, req, p, now))
  {
    var id := req.entityId;
    var cur := t.documents[id];
    var d := cur.(title := p.title, metadata := p.metadata, fullTextBlob := req.rawContent, contentHash := p.contentHash,
                  version := cur.version + 1, lastExtractedAt := now);
    var row := AuditRow(id, "update", Some(cur.contentHash), p.contentHash, "Updated to version " + NatToString(cur.version + 1));
    WriteDocumentKeepsValid(t.documents, t.audit, d, row);
  }

  /** The facts phase keeps the invariant when the rows belong to a stored document. */
  lemma ShreddedKeepsValid(t: Tables, shredded: ShredOutcome, docId: string)
    requires TablesValid(t) && docId in t.documents && RowsOfDoc(shredded, docId)
    ensures TablesValid(Shredded(t, shredded).tables)
  {
    if shredded.Success? {
      UpsertKeepsValid(t.facts, t.documents, shredded.value, docId);
    }
  }

  /** Storing keeps the invariant, whatever the outcome. */
  lemma StoreKeepsValid(t: Tables, req: StoreRequest, p: Prepared, now: nat)
    requires TablesValid(t) && RowsOfDoc(p.shredded, req.entityId)
    ensures TablesValid(StoreSpec(t, req, p, now).tables)
  {
    DocumentPhaseKeepsValid(t, req, p, now);
    ShreddedKeepsValid(DocumentPhase(t, req, p, now), p.shredded, req.entityId);
  }

  /** Change detection after a store: the same content hash is reported as neither new nor changed. */
  lemma StatusAfterStore(t: Tables, req: StoreRequest, p: Prepared, now: nat)
    ensures Status(StoreSpec(t, req, p, now).tables, req.entityId, Str(p.contentHash)) == (false, false)
  {
  }

  /** A new document is inserted at version 1 with the content's hash, under one 'create' audit row. */
  lemma StoreNew(t: Tables, req: StoreRequest, p: Prepared, now: nat)
    requires req.entityId !in t.documents
    ensures var r := StoreSpec(t, req, p, now);
            && r.tables.documents == t.documents[req.entityId := Document(
                 req.entityId, req.sourceType, p.title, req.sourceUrl, p.metadata, req.rawContent,
                 p.contentHash, 1, now, now, now)]
            && r.tables.audit == t.audit + [AuditRow(req.entityId, "create", None, p.contentHash, "Initial extraction")]
            && r.tables.facts == (if p.shredded.Success? then Upsert(t.facts, p.shredded.value) else t.facts)
            && (r.outcome.Success? <==> p.shredded.Success?)
  {
  }

  /**
   * Changed content: the version goes up by exactly one; title, metadata,
   * blob and hash are replaced while source type, url, creation and
   * first-seen times stay; one 'update' audit row carries both hashes; the
   * document's old facts are deleted before the new rows go in.
   */
  lemma StoreChanged(t: Tables, req: StoreRequest, p: Prepared, now: nat)
    requires req.entityId in t.documents && t.documents[req.entityId].contentHash != p.contentHash
    ensures var r := StoreSpec(t, req, p, now);
            var was := t.documents[req.entityId];
            && r.tables.documents == t.documents[req.entityId := Document(
                 was.docId, was.sourceType, p.title, was.url, p.metadata, req.rawContent, p.contentHash,
                 was.version + 1, was.firstSeenAt, now, was.createdAt)]
            && r.tables.audit == t.audit + [AuditRow(req.entityId, "update", Some(was.contentHash), p.contentHash,
                                                     "Updated to version " + NatToString(was.version + 1))]
            && r.tables.facts == (if p.shredded.Success? then Upsert(RemoveDocFacts(t.facts, req.entityId), p.shredded.value)
                                  else RemoveDocFacts(t.facts, req.entityId))
            && (r.outcome.Success? <==> p.shredded.Success?)
  {
  }

  /** Unchanged content only moves `last_extracted_at`: no audit row, no fact written or deleted, no error. */
  lemma StoreUnchanged(t: Tables, req: StoreRequest, p: Prepared, now: nat)
    requires req.entityId in t.documents && t.documents[req.entityId].contentHash == p.contentHash
    ensures StoreSpec(t, req, p, now)
              == StoreResult(t.(documents := t.documents[req.entityId := t.documents[req.entityId].(lastExtractedAt := now)]),
                             Success(()))
  {
  }

  /**
   * Re-storing identical content is idempotent on documents (but for the
   * extraction time), audit and facts, even when the first store's
   * shredding raised: the document's hash is then already current, so the
   * record is not shredded again.
   */
  lemma StoreTwice(t: Tables, req: StoreRequest, p: Prepared, now1: nat, now2: nat)
    ensures var r1 := StoreSpec(t, req, p, now1).tables;
            var r2 := StoreSpec(r1, req, p, now2);
            && req.entityId in r1.documents
            && r2.outcome == Success(())
            && r2.tables.facts == r1.facts && r2.tables.audit == r1.audit
            && r2.tables.documents == r1.documents[req.entityId := r1.documents[req.entityId].(lastExtractedAt := now2)]
  {
    StatusAfterStore(t, req, p, now1);
    StoreUnchanged(StoreSpec(t, req, p, now1).tables, req, p, now2);
  }

  /** Storing only appends to the audit table, at most one row. */
  lemma StoreAuditAppendOnly(t: Tables, req: StoreRequest, p: Prepared, now: nat)
    ensures var r := StoreSpec(t, req, p, now).tables;
            t.audit <= r.audit && |r.audit| <= |t.audit| + 1
  {
  }

  /**
   * INSERT OR REPLACE of rows that all belong to `docId`, into a table that
   * holds none of its facts: the document's facts are then exactly the
   * rows' ids, each holding the last row with that id, and every other id
   * keeps its row.
   */
  lemma UpsertDocFacts(facts: map<string, FactRow>, rows: seq<FactRow>, docId: string)
    requires DocFactIds(facts, docId) == {}
    requires forall f :: f in rows ==> f.docId == docId
    ensures DocFactIds(Upsert(facts, rows), docId) == RowIds(rows)
    ensures forall k :: k in RowIds(rows) ==> k in Upsert(facts, rows) && Some(Upsert(facts, rows)[k]) == LastWithId(rows, k)
    ensures forall k :: k in facts && k !in RowIds(rows) ==> k in Upsert(facts, rows) && Upsert(facts, rows)[k] == facts[k]
  {
    var u := Upsert(facts, rows);
    forall k
      ensures (k in DocFactIds(u, docId) <==> k in RowIds(rows))
              && (k in RowIds(rows) ==> k in u && Some(u[k]) == LastWithId(rows, k))
              && (k in facts && k !in RowIds(rows) ==> k in u && u[k] == facts[k])
    {
      UpsertLookup(facts, rows, k);
      LastWithIdIsLast(rows, k);
      if k in facts {
        assert k !in DocFactIds(facts, docId);
      }
    }
  }

  /**
   * After a new or changed document is stored with rows shredded from it,
   * its facts are exactly the rows' item ids, each id holding the last row
   * that has it; it has one fact per row exactly when no two rows share an
   * id (a repeated id is overwritten in place).
   */
  lemma StoreFactsOfDoc(t: Tables, req: StoreRequest, p: Prepared, now: nat)
    requires TablesValid(t) && Status(t, req.entityId, Str(p.contentHash)) != (false, false)
    requires p.shredded.Success? && RowsOfDoc(p.shredded, req.entityId)
    ensures var r := StoreSpec(t, req, p, now).tables;
            var rows := p.shredded.value;
            && DocFactIds(r.facts, req.entityId) == RowIds(rows)
            && (forall k :: k in RowIds(rows) ==> Some(r.facts[k]) == LastWithId(rows, k))
            && (|DocFactIds(r.facts, req.entityId)| == |rows| <==> DistinctIds(rows))
  {
    var t1 := DocumentPhase(t, req, p, now);
    assert DocFactIds(t1.facts, req.entityId) == {} by {
      if req.entityId !in t.documents {
        forall k | k in t.facts ensures t.facts[k].docId != req.entityId {
          assert t.facts[k].docId in t.documents;
        }
      }
    }
    UpsertDocFacts(t1.facts, p.shredded.value, req.entityId);
    RowIdsCount(p.shredded.value);
  }

  /**
   * A fact of another document survives a store unchanged, unless one of the
   * stored rows reuses its item id: then it is replaced by that row, and so
   * moves to the stored document.
   */
  lemma StoreOtherFacts(t: Tables, req: StoreRequest, p: Prepared, now: nat, k: string)
    requires k in t.facts && t.facts[k].docId != req.entityId
    ensures var r := StoreSpec(t, req, p, now).tables;
            && k in r.facts
            && if Status(t, req.entityId, Str(p.contentHash)) != (false, false) && p.shredded.Success? && k in RowIds(p.shredded.value)
               then Some(r.facts[k]) == LastWithId(p.shredded.value, k)
               else r.facts[k] == t.facts[k]
  {
    var t1 := DocumentPhase(t, req, p, now);
    assert k in t1.facts && t1.facts[k] == t.facts[k];
    if p.shredded.Success? {
      UpsertLookup(t1.facts, p.shredded.value, k);
      LastWithIdIsLast(p.shredded.value, k);
    }
  }

  // -------------------------------------------------------- get_entity

  /** The entity rebuilt from a document row: its metadata, with the title added to form the structured data. */
  function ToStoredEntity(d: Document): (e: StoredEntity)
    ensures e.structuredData.Keys == d.metadata.Keys + {"title"} && e.structuredData["title"] == d.title
    ensures forall k :: k in d.metadata && k != "title" ==> e.structuredData[k] == d.metadata[k]
  {
    StoredEntity(d.docId, d.sourceType, d.url, d.fullTextBlob, d.metadata["title" := d.title], d.metadata, d.createdAt)
  }

  /** `get_entity`: the entity stored under `id`, or None. */
  function Lookup(t: Tables, id: string): (r: Option<StoredEntity>)
    ensures r.Some? <==> id in t.documents
  {
    if id in t.documents then Some(ToStoredEntity(t.documents[id])) else None
  }

  /**
   * After a store the entity can be read back. Re-storing unchanged content
   * is invisible to `get_entity`; otherwise it returns the request's raw
   * content, the derived metadata and title, and (for an update) keeps the
   * first source type, url and creation time.
   */
  lemma LookupAfterStore(t: Tables, req: StoreRequest, p: Prepared, now: nat)
    requires TablesValid(t)
    ensures var r := StoreSpec(t, req, p, now).tables;
            var e := Lookup(r, req.entityId);
            && e.Some? && e.value.entityId == req.entityId
            && (Status(t, req.entityId, Str(p.contentHash)) == (false, false) ==> e == Lookup(t, req.entityId))
            && (Status(t, req.entityId, Str(p.contentHash)) != (false, false) ==>
                  && e.value.rawContent == req.rawContent && e.value.metadata == p.metadata
                  && e.value.structuredData["title"] == p.title
                  && if req.entityId in t.documents
                     then var was := t.documents[req.entityId];
                          e.value.sourceType == was.sourceType && e.value.sourceUrl == was.url && e.value.createdAt == was.createdAt
                     else e.value.sourceType == req.sourceType && e.value.sourceUrl == req.sourceUrl && e.value.createdAt == now)
  {
    if req.entityId !in t.documents {
      StoreNew(t, req, p, now);
    } else if t.documents[req.entityId].contentHash != p.contentHash {
      StoreChanged(t, req, p, now);
    } else {
      StoreUnchanged(t, req, p, now);
    }
  }

  // ----------------------------------------------------- delete_entity

  /** `delete_entity`: the document's facts first, then its row; the audit table is kept. */
  function DeleteSpec(t: Tables, id: string): Tables {
    Tables(t.documents - {id}, RemoveDocFacts(t.facts, id), t.audit)
  }

  lemma DeleteKeepsValid(t: Tables, id: string)
    requires TablesValid(t)
    ensures TablesValid(DeleteSpec(t, id))
  {
  }

  /**
   * Deleting removes the document and every one of its facts and nothing
   * else: other documents and other documents' facts stay as they were.
   */
  lemma DeleteCascades(t: Tables, id: string)
    ensures var r := DeleteSpec(t, id);
            && Lookup(r, id).None? && DocFactIds(r.facts, id) == {} && r.audit == t.audit
            && (forall x :: x != id ==> Lookup(r, x) == Lookup(t, x))
            && (forall k :: k in t.facts && t.facts[k].docId != id ==> k in r.facts && r.facts[k] == t.facts[k])
            && (forall k :: k in r.facts ==> k in t.facts)
  {
  }

  // ------------------------------------------------------ count_entities

  /** The `source_type` filter, applied only when a non-empty type is given. */
  predicate TypeMatches(d: Document, sourceType: Option<string>) {
    sourceType.None? || sourceType.value == "" || d.sourceType == sourceType.value
  }

  /** The ids of the documents the filter selects. */
  function MatchingDocs(t: Tables, sourceType: Option<string>): (r: set<string>)
    ensures r <= t.documents.Keys
  {
    set id | id in t.documents && TypeMatches(t.documents[id], sourceType)
  }

  /** `count_entities`. */
  function Count(t: Tables, sourceType: Option<string>): nat {
    |MatchingDocs(t, sourceType)|
  }

  /** Without a filter every document is counted; a filter never counts more. */
  lemma CountBounds(t: Tables, sourceType: Option<string>)
    ensures Count(t, sourceType) <= |t.documents|
    ensures (sourceType.None? || sourceType == Some("")) ==> Count(t, sourceType) == |t.documents|
  {
    assert (sourceType.None? || sourceType == Some("")) ==> MatchingDocs(t, sourceType) == t.documents.Keys;
    SubsetCard(MatchingDocs(t, sourceType), t.documents.Keys);
  }

  /** A subset has no more elements. */
  lemma {:induction false} SubsetCard(a: set<string>, b: set<string>)
    requires a <= b
    ensures |a| <= |b|
    decreases |b|
  {
    if a != {} {
      var x :| x in a;
      SubsetCard(a - {x}, b - {x});
    }
  }

  /** A store writes the document under its id and no other; source types already stored stay. */
  lemma StoreDocuments(t: Tables, req: StoreRequest, p: Prepared, now: nat)
    ensures var r := StoreSpec(t, req, p, now).tables;
            && r.documents.Keys == t.documents.Keys + {req.entityId}
            && (forall x :: x in t.documents ==> r.documents[x].sourceType == t.documents[x].sourceType)
            && (req.entityId !in t.documents ==> r.documents[req.entityId].sourceType == req.sourceType)
  {
    if req.entityId !in t.documents {
      StoreNew(t, req, p, now);
    } else if t.documents[req.entityId].contentHash != p.contentHash {
      StoreChanged(t, req, p, now);
    } else {
      StoreUnchanged(t, req, p, now);
    }
  }

  /** The filter over a table that gained at most the id `id` and kept every stored source type. */
  lemma MatchingAfterInsert(t: Tables, r: Tables, id: string, sourceType: Option<string>)
    requires r.documents.Keys == t.documents.Keys + {id}
    requires forall x :: x in t.documents ==> r.documents[x].sourceType == t.documents[x].sourceType
    ensures MatchingDocs(r, sourceType)
              == MatchingDocs(t, sourceType) + if id !in t.documents && TypeMatches(r.documents[id], sourceType) then {id} else {}
  {
  }

  /** Storing adds one to the count exactly when it inserts a new document of a selected type. */
  lemma CountAfterStore(t: Tables, req: StoreRequest, p: Prepared, now: nat, sourceType: Option<string>)
    ensures Count(StoreSpec(t, req, p, now).tables, sourceType)
              == Count(t, sourceType)
                 + if req.entityId !in t.documents && (sourceType.None? || sourceType.value == "" || req.sourceType == sourceType.value)
                   then 1 else 0
  {
    var r := StoreSpec(t, req, p, now).tables;
    StoreDocuments(t, req, p, now);
    MatchingAfterInsert(t, r, req.entityId, sourceType);
  }

  /** Deleting takes one off the count exactly when it removes a document of a selected type. */
  lemma CountAfterDelete(t: Tables, id: string, sourceType: Option<string>)
    ensures Count(DeleteSpec(t, id), sourceType)
              == Count(t, sourceType) - if id in t.documents && TypeMatches(t.documents[id], sourceType) then 1 else 0
  {
    if id in t.documents && TypeMatches(t.documents[id], sourceType) {
      assert MatchingDocs(t, sourceType) == MatchingDocs(DeleteSpec(t, id), sourceType) + {id};
    } else {
      assert MatchingDocs(DeleteSpec(t, id), sourceType) == MatchingDocs(t, sourceType);
    }
  }

  // ----------------------------------------------------- query_entities

  /** `ids` lists the selected documents, each once, newest first (`ORDER BY created_at DESC`). */
  predicate IsListing(t: Tables, sourceType: Option<string>, ids: seq<string>) {
    && Distinct(ids)
    && (forall i :: 0 <= i < |ids| ==> ids[i] in MatchingDocs(t, sourceType))
    && (forall id :: id in MatchingDocs(t, sourceType) ==> id in ids)
    && (forall i, j :: 0 <= i < j < |ids| ==> t.documents[ids[j]].createdAt <= t.documents[ids[i]].createdAt)
  }

  /** A listing has as many entries as `count_entities` reports for the same filter. */
  lemma ListingCount(t: Tables, sourceType: Option<string>, ids: seq<string>)
    requires IsListing(t, sourceType, ids)
    ensures |ids| == Count(t, sourceType)
  {
    DistinctCount(ids);
    assert (set x | x in ids) == MatchingDocs(t, sourceType);
  }

  function Min(a: nat, b: nat): nat {
    if a <= b then a else b
  }

  /** `LIMIT limit OFFSET offset`: the entries from `offset` on, at most `limit` of them. */
  function Page<T>(xs: seq<T>, offset: nat, limit: nat): (r: seq<T>)
    ensures |r| == if offset >= |xs| then 0 else Min(limit, |xs| - offset)
    ensures forall i :: 0 <= i < |r| ==> r[i] == xs[offset + i]
  {
    if offset >= |xs| then [] else xs[offset..offset + Min(limit, |xs| - offset)]
  }

  // --------------------------------------------------- retrieve_context

  /** An upper-case hexadecimal digit, as DuckDB's JSON writer prints them. */
  function UpperHexDigit(d: nat): (c: char)
    requires d < 16
    ensures '0' <= c <= '9' || 'A' <= c <= 'F'
  {
    if d < 10 then ('0' as int + d) as char else ('A' as int + d - 10) as char
  }

  /** The value of an upper-case hexadecimal digit. */
  function UpperHexValue(c: char): (d: nat)
    ensures d < 16
    ensures forall e :: 0 <= e < 16 && c == UpperHexDigit(e) ==> d == e
  {
    if '0' <= c <= '9' then c as int - '0' as int
    else if 'A' <= c <= 'F' then c as int - 'A' as int + 10
    else 0
  }

  /**
   * How DuckDB writes one character inside a JSON string: a backslash before
   * the quote and the backslash, `\b`, `\f`, `\n`, `\r`, `\t`, `\u00XX` for
   * the other control characters, and the character itself otherwise.
   */
  function JsonEscapeChar(c: char): (r: string)
    ensures |r| == 1 || |r| == 2 || |r| == 6
    ensures r[0] != '\\' <==> r == [c]
    ensures r[0] == '\\' <==> c == '"' || c == '\\' || c < ' '
  {
    if c == '"' || c == '\\' then ['\\', c]
    else if c == '\U{8}' then "\\b"
    else if c == '\U{C}' then "\\f"
    else if c == '\n' then "\\n"
    else if c == '\r' then "\\r"
    else if c == '\t' then "\\t"
    else if c < ' ' then "\\u00" + [UpperHexDigit(c as int / 16), UpperHexDigit(c as int % 16)]
    else [c]
  }

  function JsonEscape(s: string): string {
    if s == [] then [] else JsonEscapeChar(s[0]) + JsonEscape(s[1..])
  }

  /** What a JSON reader makes of the escapes inside a string. */
  function JsonUnescape(e: string): string
    decreases |e|
  {
    if e == [] then []
    else if e[0] != '\\' || |e| == 1 then [e[0]] + JsonUnescape(e[1..])
    else if e[1] == 'b' then "\U{8}" + JsonUnescape(e[2..])
    else if e[1] == 'f' then "\U{C}" + JsonUnescape(e[2..])
    else if e[1] == 'n' then "\n" + JsonUnescape(e[2..])
    else if e[1] == 'r' then "\r" + JsonUnescape(e[2..])
    else if e[1] == 't' then "\t" + JsonUnescape(e[2..])
    else if e[1] == 'u' && |e| >= 6 then
      [(16 * UpperHexValue(e[4]) + UpperHexValue(e[5])) as char] + JsonUnescape(e[6..])
    else [e[1]] + JsonUnescape(e[2..])
  }

  lemma JsonUnescapeEscapeChar(c: char, rest: string)
    ensures JsonUnescape(JsonEscapeChar(c) + rest) == [c] + JsonUnescape(rest)
  {
    var e := JsonEscapeChar(c) + rest;
    if |JsonEscapeChar(c)| == 6 {
      var n := c as int;
      assert e[6..] == rest;
      assert UpperHexValue(e[4]) == n / 16 && UpperHexValue(e[5]) == n % 16;
    } else if |JsonEscapeChar(c)| == 2 {
      assert e[2..] == rest;
    } else {
      assert e[1..] == rest;
    }
  }

  /** Reading back what the writer wrote gives the original characters. */
  lemma {:induction false} JsonUnescapeEscape(s: string)
    ensures JsonUnescape(JsonEscape(s)) == s
  {
    if s != [] {
      JsonUnescapeEscapeChar(s[0], JsonEscape(s[1..]));
      JsonUnescapeEscape(s[1..]);
      assert s == [s[0]] + s[1..];
    }
  }

  /** A JSON string literal. */
  function JsonString(s: string): (r: string)
    ensures |r| >= 2 && r[0] == '"' && r[|r| - 1] == '"'
    ensures JsonUnescape(r[1..|r| - 1]) == s
  {
    JsonUnescapeEscape(s);
    var r := "\"" + JsonEscape(s) + "\"";
    assert r[1..|r| - 1] == JsonEscape(s);
    r
  }

  /** Distinct strings are written as distinct JSON literals. */
  lemma JsonStringInjective(s: string, t: string)
    requires JsonString(s) == JsonString(t)
    ensures s == t
  {
    var r := JsonString(s);
    assert JsonUnescape(r[1..|r| - 1]) == s;
  }

  /**
   * The compact JSON text DuckDB writes for a value: no spaces, object
   * members in ascending key order.
   */
  function JsonText(v: Value): (r: string)
    decreases v
    ensures v.Str? ==> r == JsonString(v.s)
    ensures v.Num? ==> r == IntToString(v.n)
    ensures v.Arr? ==> |r| >= 2 && r[0] == '[' && r[|r| - 1] == ']'
    ensures v.Obj? ==> |r| >= 2 && r[0] == '{' && r[|r| - 1] == '}'
  {
    match v
    case Str(s) => JsonString(s)
    case Num(n) => IntToString(n)
    case Bool(b) => if b then "true" else "false"
    case Null => "null"
    case Arr(xs) => "[" + Join(",", seq(|xs|, k requires 0 <= k < |xs| => JsonText(xs[k]))) + "]"
    case Obj(m) =>
      var ks := Sorted(m.Keys);
      "{" + Join(",", seq(|ks|, k requires 0 <= k < |ks| => JsonString(ks[k]) + ":" + JsonText(m[ks[k]]))) + "}"
  }

  /**
   * The value a JSON path `$.a.b` reaches: each dot-separated component is a
   * key of the object reached so far.
   */
  function Navigate(v: Value, path: seq<string>): (r: Option<Value>)
    ensures path == [] ==> r == Some(v)
    ensures path != [] && !(v.Obj? && path[0] in v.fields) ==> r.None?
    decreases |path|
  {
    if path == [] then Some(v)
    else if v.Obj? && path[0] in v.fields then Navigate(v.fields[path[0]], path[1..])
    else None
  }

  /**
   * `json_extract_string(properties, '$.' + key)`: the path's components
   * navigate nested objects; a string gives itself, a number its digits, a
   * boolean 'true' or 'false', a list or a dict its JSON text; a missing key or a
   * JSON null gives SQL NULL, which equals nothing.
   */
  function JsonExtractString(props: Dict, key: string): (r: Option<string>)
    ensures var v := Navigate(Obj(props), Split(key, '.'));
      && (r.Some? <==> v.Some? && !v.value.Null?)
      && (v.Some? && v.value.Str? ==> r == Some(v.value.s))
      && (v.Some? && (v.value.Arr? || v.value.Obj?) ==> r == Some(JsonText(v.value)))
    ensures '.' !in key ==> (r.Some? <==> key in props && !props[key].Null?)
    ensures '.' !in key && key in props && props[key].Str? ==> r == Some(props[key].s)
  {
    match Navigate(Obj(props), Split(key, '.'))
    case None => None
    case Some(v) =>
      match v
      case Str(s) => Some(s)
      case Num(n) => Some(IntToString(n))
      case Bool(b) => Some(if b then "true" else "false")
      case Null => None
      case _ => Some(JsonText(v))
  }

  /** A dotted key reaches a nested property: `{"a": {"b": "x"}}` gives "x" for `a.b`. */
  lemma JsonExtractNested(props: Dict, a: string, b: string, x: string)
    requires '.' !in a && '.' !in b
    requires a in props && props[a] == Obj(map[b := Str(x)])
    ensures JsonExtractString(props, a + "." + b) == Some(x)
  {
    var key := a + "." + b;
    assert key[|a|] == '.' && forall j :: 0 <= j < |a| ==> key[j] == a[j];
    IndexOfAt(key, '.', |a|);
    assert key[..|a|] == a && key[|a| + 1..] == b;
    assert Split(b, '.') == [b];
    assert Split(key, '.') == [a, b];
    assert Navigate(Obj(map[b := Str(x)]), [b]) == Navigate(Str(x), []) == Some(Str(x));
    assert Navigate(Obj(props), [a, b]) == Navigate(Obj(map[b := Str(x)]), [b]);
  }

  /** A list is compared as its JSON text, not skipped: `["x"]` is the text `["x"]`. */
  lemma JsonExtractList(props: Dict, key: string, x: string)
    requires '.' !in key && key in props && props[key] == Arr([Str(x)])
    ensures JsonExtractString(props, key) == Some("[" + JsonString(x) + "]")
  {
    var xs := [Str(x)];
    assert seq(|xs|, k requires 0 <= k < |xs| => JsonText(xs[k])) == [JsonString(x)];
  }

  /** The fact joins to a document and every filter key extracts to the filter's value. */
  predicate FactMatches(t: Tables, k: string, filters: map<string, string>)
    requires k in t.facts
  {
    && t.facts[k].docId in t.documents
    && forall f :: f in filters ==> JsonExtractString(t.facts[k].properties, f) == Some(filters[f])
  }

  /** The facts the join and the filters select. */
  function MatchingFacts(t: Tables, filters: map<string, string>): (r: set<string>)
    ensures r <= t.facts.Keys
  {
    set k | k in t.facts && FactMatches(t, k, filters)
  }

  /** The dict `retrieve_context` builds for a selected fact and its document. */
  function ContextOf(t: Tables, k: string): ContextItem
    requires k in t.facts && t.facts[k].docId in t.documents
  {
    var f := t.facts[k];
    var d := t.documents[f.docId];
    ContextItem(f.content, f.itemType, f.properties, d.title, d.url, f.location)
  }

  /** Under the invariant the join loses no fact: without filters every fact is selected. */
  lemma NoFilterSelectsAll(t: Tables)
    requires TablesValid(t)
    ensures MatchingFacts(t, map[]) == t.facts.Keys
  {
  }

  /** More filters select fewer facts. */
  lemma FiltersNarrow(t: Tables, f1: map<string, string>, f2: map<string, string>)
    requires f1.Keys <= f2.Keys && forall k :: k in f1 ==> f2[k] == f1[k]
    ensures MatchingFacts(t, f2) <= MatchingFacts(t, f1)
  {
  }

  /**
   * A selected fact's properties reach a value along every filter's path; an
   * undotted filter key is a property, holding the filter's value when it is
   * a string.
   */
  lemma MatchedFactHasFilters(t: Tables, filters: map<string, string>, k: string, f: string)
    requires k in MatchingFacts(t, filters) && f in filters
    ensures Navigate(Obj(t.facts[k].properties), Split(f, '.')).Some?
    ensures '.' !in f ==> f in t.facts[k].properties
    ensures '.' !in f && t.facts[k].properties[f].Str? ==> t.facts[k].properties[f] == Str(filters[f])
  {
  }

  /** A fact with a nested property is selected by the dotted filter on it. */
  lemma NestedFilterMatches(t: Tables, k: string, a: string, b: string, x: string)
    requires k in t.facts && t.facts[k].docId in t.documents
    requires '.' !in a && '.' !in b
    requires a in t.facts[k].properties && t.facts[k].properties[a] == Obj(map[b := Str(x)])
    ensures k in MatchingFacts(t, map[a + "." + b := x])
  {
    JsonExtractNested(t.facts[k].properties, a, b, x);
  }

  /** A non-empty set of ids has a newest one. */
  lemma Newest(created: map<string, nat>, s: set<string>) returns (k: string)
    requires s != {} && s <= created.Keys
    ensures k in s && forall x :: x in s ==> created[x] <= created[k]
    decreases |s|
  {
    var y :| y in s;
    if s == {y} {
      k := y;
    } else {
      var k' := Newest(created, s - {y});
      k := if created[k'] < created[y] then y else k';
    }
  }

  /** A dict with the keys and values `CopyExcept` describes is that dict. */
  lemma CopyExceptPointwise<V>(base: map<string, V>, sd: map<string, V>, excluded: set<string>, m: map<string, V>)
    requires forall k :: k in m <==> k in base || (k in sd && k !in excluded)
    requires forall k :: k in m ==> m[k] == if k in sd && k !in excluded then sd[k] else base[k]
    ensures m == CopyExcept(base, sd, excluded)
  {
  }

  /** The ids of `s` in an order of non-increasing `created` time, each once. */
  method NewestFirst(created: map<string, nat>, s: set<string>) returns (ids: seq<string>)
    requires s <= created.Keys
    ensures Distinct(ids)
    ensures forall i :: 0 <= i < |ids| ==> ids[i] in s
    ensures forall x :: x in s ==> x in ids
    ensures forall i, j :: 0 <= i < j < |ids| ==> created[ids[j]] <= created[ids[i]]
  {
    var remaining := s;
    ids := [];
    while remaining != {}
      invariant remaining <= s
      invariant Distinct(ids)
      invariant forall i :: 0 <= i < |ids| ==> ids[i] in s && ids[i] !in remaining
      invariant forall x :: x in s ==> x in ids || x in remaining
      invariant forall i, j :: 0 <= i < j < |ids| ==> created[ids[j]] <= created[ids[i]]
      invariant forall i, x :: 0 <= i < |ids| && x in remaining ==> created[x] <= created[ids[i]]
      decreases |remaining|
    {
      ghost var newest := Newest(created, remaining);
      var k :| k in remaining && forall x :: x in remaining ==> created[x] <= created[k];
      ids := ids + [k];
      remaining := remaining - {k};
    }
  }

  /**
   * Distinct picks from `matching` that include every match seen so far:
   * no more picks than matches, and all of them once every match was seen.
   */
  lemma PickedCount(picked: seq<string>, matching: set<string>, seen: set<string>)
    requires Distinct(picked) && forall i :: 0 <= i < |picked| ==> picked[i] in matching
    requires forall x :: x in matching && x in seen ==> x in picked
    ensures |picked| <= |matching|
    ensures matching <= seen ==> |picked| == |matching|
  {
    var pickedSet := set x | x in picked;
    DistinctCount(picked);
    SubsetCard(pickedSet, matching);
    if matching <= seen {
      SubsetCard(matching, pickedSet);
    }
  }

  /** The `WHERE ... LIMIT` scan: up to `limit` distinct keys of `matching`, taken from `keys` in any order. */
  method TakeMatching(keys: set<string>, matching: set<string>, limit: nat) returns (picked: seq<string>)
    requires matching <= keys
    ensures |picked| == Min(limit, |matching|) && Distinct(picked)
    ensures forall i :: 0 <= i < |picked| ==> picked[i] in matching
  {
    var remaining := keys;
    ghost var done: set<string> := {};
    picked := [];
    while remaining != {} && |picked| < limit
      invariant remaining + done == keys && remaining !! done
      invariant |picked| <= limit && Distinct(picked)
      invariant forall i :: 0 <= i < |picked| ==> picked[i] in matching && picked[i] in done
      invariant forall x :: x in matching && x in done ==> x in picked
      decreases |remaining|
    {
      var k :| k in remaining;
      if k in matching {
        picked := picked + [k];
      }
      remaining := remaining - {k};
      done := done + {k};
    }
    PickedCount(picked, matching, done);
  }

  // ------------------------------------------------------------ the class

  /** A caller's metadata dict, which `store_entity` may update in place. */
  class MetadataDict {
    var entries: Dict

    constructor (entries: Dict)
      ensures this.entries == entries
    {
      this.entries := entries;
    }
  }

  /** The store: one field per table of the database. */
  class StarSchemaStore {
    var documents: map<string, Document>
    var facts: map<string, FactRow>
    var audit: seq<AuditRow>

    function State(): Tables
      reads this
    {
      Tables(documents, facts, audit)
    }

    ghost predicate Valid()
      reads this
    {
      TablesValid(State())
    }

    /** A store over a freshly created schema: three empty tables. */
    constructor ()
      ensures Valid() && State() == Tables(map[], map[], [])
    {
      documents := map[];
      facts := map[];
      audit := [];
    }

    /** `check_document_status`: (is new, has changed). */
    method CheckDocumentStatus(docId: string, contentHash: Value) returns (isNew: bool, hasChanged: bool)
      ensures (isNew, hasChanged) == Status(State(), docId, contentHash)
    {
      if docId !in documents {
        return true, false;
      }
      var existingHash := documents[docId].contentHash;
      if Str(existingHash) != contentHash {
        return false, true;
      }
      return false, false;
    }

    /** The copy loop: every entry of the record whose key is not excluded is written into `target`. */
    static method AddExtraFields(target: MetadataDict, structuredData: Dict, excluded: set<string>)
      modifies target
      ensures target.entries == CopyExcept(old(target.entries), structuredData, excluded)
    {
      ghost var base := target.entries;
      var keys := structuredData.Keys;
      while keys != {}
        invariant keys <= structuredData.Keys
        invariant forall k :: k in target.entries <==> k in base || (k in structuredData && k !in keys && k !in excluded)
        invariant forall k :: k in target.entries ==>
                    target.entries[k] == if k in structuredData && k !in keys && k !in excluded then structuredData[k] else base[k]
        decreases |keys|
      {
        var k :| k in keys;
        if k !in excluded {
          target.entries := target.entries[k := structuredData[k]];
        }
        keys := keys - {k};
      }
      CopyExceptPointwise(base, structuredData, excluded, target.entries);
    }

    /** The document phase of `store_entity`, given the status already read. */
    method WriteDocument(req: StoreRequest, contentHash: string, docMetadata: Dict, title: Value, now: nat,
                         isNew: bool, hasChanged: bool, ghost p: Prepared)
      requires (isNew, hasChanged) == Status(State(), req.entityId, Str(contentHash))
      requires p.contentHash == contentHash && p.metadata == docMetadata && p.title == title
      modifies this
      ensures State() == DocumentPhase(old(State()), req, p, now)
    {
      var id := req.entityId;
      if isNew {
        documents := documents[id := Document(id, req.sourceType, title, req.sourceUrl, docMetadata, req.rawContent,
                                              contentHash, 1, now, now, now)];
        audit := audit + [AuditRow(id, "create", None, contentHash, "Initial extraction")];
      } else if hasChanged {
        var current := documents[id];
        var currentVersion := current.version;
        var oldHash := current.contentHash;
        documents := documents[id := current.(title := title, metadata := docMetadata, fullTextBlob := req.rawContent,
                                              contentHash := contentHash, version := currentVersion + 1,
                                              lastExtractedAt := now)];
        audit := audit + [AuditRow(id, "update", Some(oldHash), contentHash,
                                   "Updated to version " + NatToString(currentVersion + 1))];
        facts := RemoveDocFacts(facts, id);
      } else {
        documents := documents[id := documents[id].(lastExtractedAt := now)];
      }
    }

    /** The batch `INSERT OR REPLACE`, one row after the other. */
    method InsertOrReplace(rows: seq<FactRow>)
      modifies this
      ensures facts == Upsert(old(facts), rows)
      ensures documents == old(documents) && audit == old(audit)
    {
      var i := 0;
      while i < |rows|
        invariant 0 <= i <= |rows|
        invariant facts == Upsert(old(facts), rows[..i])
        invariant documents == old(documents) && audit == old(audit)
      {
        assert rows[..i + 1][..i] == rows[..i];
        facts := facts[rows[i].itemId := rows[i]];
        i := i + 1;
      }
      assert rows[..i] == rows;
    }

    /** The facts phase: the batch insert of the shredded rows, or the error the loop raised. */
    method WriteFacts(shredded: ShredOutcome) returns (outcome: Result<(), ShredError>)
      modifies this
      ensures State() == Shredded(old(State()), shredded).tables && outcome == Shredded(old(State()), shredded).outcome
    {
      if shredded.Failure? {
        outcome := Failure(shredded.error);
      } else {
        InsertOrReplace(shredded.value);
        outcome := Success(());
      }
    }

    /**
     * `store_entity` once the content hash, the metadata dict and the title
     * are computed: the document phase, then, for a new or changed document,
     * the shredding loop and the batch insert.
     */
    method StorePrepared(req: StoreRequest, contentHash: string, docMetadata: Dict, title: Value, now: nat, ghost p: Prepared)
      returns (outcome: Result<(), ShredError>)
      requires Valid()
      requires p.contentHash == contentHash && p.metadata == docMetadata && p.title == title
      requires p.shredded == Shred(req.entityId, req.sourceType, req.structuredData)
      modifies this
      ensures Valid()
      ensures State() == StoreSpec(old(State()), req, p, now).tables && outcome == StoreSpec(old(State()), req, p, now).outcome
    {
      ghost var t := State();
      var isNew, hasChanged := CheckDocumentStatus(req.entityId, Str(contentHash));
      WriteDocument(req, contentHash, docMetadata, title, now, isNew, hasChanged, p);
      if isNew || hasChanged {
        var shredded := ShredDocument(req.entityId, req.sourceType, req.structuredData);
        outcome := WriteFacts(shredded);
      } else {
        outcome := Success(());
      }
      if p.shredded.Success? {
        ShredRowsBelongToDoc(req.entityId, req.sourceType, req.structuredData);
      }
      StoreKeepsValid(t, req, p, now);
    }

    /**
     * `store_entity`. A non-empty metadata dict of the caller's is updated in
     * place with the record's extra fields; None or an empty dict is replaced
     * by a fresh one.
     */
    method StoreEntity(entityId: string, sourceType: string, sourceUrl: Value, rawContent: Value,
                       structuredData: Dict, metadata: MetadataDict?, now: nat)
      returns (outcome: Result<(), ShredError>)
      requires Valid()
      modifies this, metadata
      ensures Valid()
      ensures var req := StoreRequest(entityId, sourceType, sourceUrl, rawContent, structuredData,
                                      if metadata == null then map[] else old(metadata.entries));
              var res := StoreSpec(old(State()), req, Prepare(req), now);
              State() == res.tables && outcome == res.outcome
      ensures metadata != null ==>
                metadata.entries == if old(metadata.entries) == map[] then map[]
                                    else WithExtraFields(old(metadata.entries), structuredData)
    {
      var contentHash := ContentHash(rawContent);
      outcome := StoreHashed(entityId, sourceType, sourceUrl, rawContent, structuredData, metadata, now, contentHash);
    }

    /** `store_entity` from the point where the content hash is known. */
    method StoreHashed(entityId: string, sourceType: string, sourceUrl: Value, rawContent: Value,
                       structuredData: Dict, metadata: MetadataDict?, now: nat, contentHash: string)
      returns (outcome: Result<(), ShredError>)
      requires Valid()
      modifies this, metadata
      ensures Valid()
      ensures var req := StoreRequest(entityId, sourceType, sourceUrl, rawContent, structuredData,
                                      if metadata == null then map[] else old(metadata.entries));
              var p := Prepared(contentHash, WithExtraFields(req.metadata, structuredData), Title(structuredData),
                                Shred(entityId, sourceType, structuredData));
              var res := StoreSpec(old(State()), req, p, now);
              State() == res.tables && outcome == res.outcome
      ensures metadata != null ==>
                metadata.entries == if old(metadata.entries) == map[] then map[]
                                    else WithExtraFields(old(metadata.entries), structuredData)
    {
      var req := StoreRequest(entityId, sourceType, sourceUrl, rawContent, structuredData,
                              if metadata == null then map[] else metadata.entries);
      var docMetadata: MetadataDict;
      if metadata != null && metadata.entries != map[] {
        docMetadata := metadata;
      } else {
        docMetadata := new MetadataDict(map[]);
      }
      var listsToShred := ListsToShred(structuredData);
      AddExtraFields(docMetadata, structuredData, listsToShred + {"content", "paragraphs"});
      var title := Title(structuredData);
      ghost var p := Prepared(contentHash, docMetadata.entries, title, Shred(entityId, sourceType, structuredData));
      outcome := StorePrepared(req, contentHash, docMetadata.entries, title, now, p);
    }

    /** `get_entity`. */
    method GetEntity(entityId: string) returns (r: Option<StoredEntity>)
      ensures r == Lookup(State(), entityId)
    {
      if entityId !in documents {
        return None;
      }
      var d := documents[entityId];
      var structuredData := d.metadata["title" := d.title];
      return Some(StoredEntity(d.docId, d.sourceType, d.url, d.fullTextBlob, structuredData, d.metadata, d.createdAt));
    }

    /** `delete_entity`: true exactly when a document row was deleted. */
    method DeleteEntity(entityId: string) returns (deleted: bool)
      requires Valid()
      modifies this
      ensures Valid()
      ensures State() == DeleteSpec(old(State()), entityId)
      ensures deleted <==> entityId in old(documents)
    {
      DeleteKeepsValid(State(), entityId);
      facts := RemoveDocFacts(facts, entityId);
      deleted := entityId in documents;
      documents := documents - {entityId};
    }

    /** `count_entities`. */
    method CountEntities(sourceType: Option<string>) returns (n: nat)
      ensures n == Count(State(), sourceType)
    {
      n := |MatchingDocs(State(), sourceType)|;
    }

    /** The `SELECT ... ORDER BY created_at DESC` of `query_entities`, newest document first. */
    method SelectNewestFirst(sourceType: Option<string>) returns (ids: seq<string>)
      ensures IsListing(State(), sourceType, ids)
    {
      var created := map id | id in documents :: documents[id].createdAt;
      ids := NewestFirst(created, MatchingDocs(State(), sourceType));
    }

    /**
     * `query_entities`: the page `LIMIT limit OFFSET offset` of the selected
     * documents, newest first, each rebuilt as an entity.
     */
    method QueryEntities(sourceType: Option<string>, limit: nat, offset: nat)
      returns (entities: seq<StoredEntity>, ghost listing: seq<string>)
      ensures IsListing(State(), sourceType, listing)
      ensures |entities| == |Page(listing, offset, limit)|
      ensures |entities| == if offset >= Count(State(), sourceType) then 0 else Min(limit, Count(State(), sourceType) - offset)
      ensures forall i :: 0 <= i < |entities| ==> entities[i] == ToStoredEntity(documents[listing[offset + i]])
    {
      var ids := SelectNewestFirst(sourceType);
      listing := ids;
      ListingCount(State(), sourceType, ids);
      var rows := Page(ids, offset, limit);
      entities := [];
      var i := 0;
      while i < |rows|
        invariant 0 <= i <= |rows|
        invariant |entities| == i
        invariant forall j :: 0 <= j < i ==> entities[j] == ToStoredEntity(documents[rows[j]])
      {
        var d := documents[rows[i]];
        entities := entities + [StoredEntity(d.docId, d.sourceType, d.url, d.fullTextBlob, d.metadata["title" := d.title],
                                             d.metadata, d.createdAt)];
        i := i + 1;
      }
    }

    /**
     * `retrieve_context`: up to `limit` of the facts the join and the filters
     * select, each with its document's title and url. The query vector is not
     * used, and the order of the rows is the database's.
     */
    method RetrieveContext(queryVector: seq<real>, filters: map<string, string>, limit: nat)
      returns (results: seq<ContextItem>, ghost picked: seq<string>)
      ensures |results| == Min(limit, |MatchingFacts(State(), filters)|)
      ensures |picked| == |results| && Distinct(picked)
      ensures forall i :: 0 <= i < |picked| ==>
                picked[i] in MatchingFacts(State(), filters) && results[i] == ContextOf(State(), picked[i])
    {
      var t := State();
      var rows := TakeMatching(facts.Keys, MatchingFacts(t, filters), limit);
      picked := rows;
      results := [];
      var i := 0;
      while i < |rows|
        invariant 0 <= i <= |rows| && |results| == i
        invariant forall j :: 0 <= j < i ==> results[j] == ContextOf(t, rows[j])
      {
        var f := facts[rows[i]];
        var d := documents[f.docId];
        results := results + [ContextItem(f.content, f.itemType, f.properties, d.title, d.url, f.location)];
        i := i + 1;
      }
    }
  }
}
