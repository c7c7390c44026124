/**
 * The load step of the staged-to-warehouse pipeline: each staged JSON
 * record is stored through the star-schema store unless change detection
 * says its content is already there, and the run tallies one status per
 * staged file.
 */
module EtlLoad {
  import opened Wrappers
  import opened JsonValue
  import opened Shredding
  import opened StarSchemaStorage

  /** The status `load_item` reports for one staged file. */
  datatype LoadStatus = Created | Updated | Unchanged | Error

  /**
   * One staged file: its name without the `.json` suffix, whether it exists,
   * and what `json.load` makes of it (`None` when it cannot be read or parsed).
   */
  datatype StagedFile = StagedFile(stem: string, present: bool, content: Option<Value>)

  /** The fields `load_item` reads, with the defaults of the optional ones filled in. */
  datatype StagedRecord = StagedRecord(
    entityId: string,
    sourceType: string,
    contentHash: Value,
    url: Value,
    contentMd: Value,
    extracted: Value,
    sourceMetadata: Value)

  /** What one call leaves: the tables, and the `(entity_id, status)` pair it returns. */
  datatype LoadResult = LoadResult(tables: Tables, entityId: string, status: LoadStatus)

  /** Whether `m[k]` exists and is a string. */
  predicate HasStr(m: Dict, k: string) {
    k in m && m[k].Str?
  }

  /**
   * The record of a staged file: a JSON object with the three required keys,
   * the entity id and source type strings; `url` and `content_md` default
   * to "", `extracted` and `source_metadata` to `{}`.
   */
  function ReadRecord(content: Option<Value>): (r: Option<StagedRecord>)
    ensures r.Some? <==> content.Some? && content.value.Obj?
                         && HasStr(content.value.fields, "entity_id") && HasStr(content.value.fields, "source_type")
                         && "content_hash" in content.value.fields
    ensures r.Some? ==> var m := content.value.fields;
              r.value.entityId == m["entity_id"].s && r.value.sourceType == m["source_type"].s
              && r.value.contentHash == m["content_hash"]
              && r.value.url == (if "url" in m then m["url"] else Str(""))
              && r.value.contentMd == (if "content_md" in m then m["content_md"] else Str(""))
              && r.value.extracted == (if "extracted" in m then m["extracted"] else Obj(map[]))
              && r.value.sourceMetadata == (if "source_metadata" in m then m["source_metadata"] else Obj(map[]))
  {
    if content.None? || !content.value.Obj? then None
    else
      var m := content.value.fields;
      if HasStr(m, "entity_id") && HasStr(m, "source_type") && "content_hash" in m then
        Some(StagedRecord(m["entity_id"].s, m["source_type"].s, m["content_hash"],
                          Get(m, "url", Str("")), Get(m, "content_md", Str("")),
                          Get(m, "extracted", Obj(map[])), Get(m, "source_metadata", Obj(map[]))))
      else None
  }

  /** `metadata or {}` as the store reads it: a falsy value is an empty dict. */
  function MetadataOf(v: Value): (r: Option<Dict>)
    ensures !Truthy(v) ==> r == Some(map[])
    ensures v.Obj? ==> r == Some(v.fields)
    ensures r.None? <==> Truthy(v) && !v.Obj?
  {
    if v.Obj? then Some(v.fields)
    else if !Truthy(v) then Some(map[])
    else None
  }

  /**
   * The `store_entity` call of a record, when `store_entity` can run on it:
   * `extracted` must be a dict and `source_metadata` falsy or a dict; the
   * url and the content are passed on whatever their type.
   */
  function StoreRequestOf(rec: StagedRecord): (r: Option<StoreRequest>)
    ensures r.Some? <==> rec.extracted.Obj? && MetadataOf(rec.sourceMetadata).Some?
    ensures r.Some? ==> r.value == StoreRequest(rec.entityId, rec.sourceType, rec.url, rec.contentMd,
                                                rec.extracted.fields, MetadataOf(rec.sourceMetadata).value)
  {
    if rec.extracted.Obj? && MetadataOf(rec.sourceMetadata).Some? then
      Some(StoreRequest(rec.entityId, rec.sourceType, rec.url, rec.contentMd,
                        rec.extracted.fields, MetadataOf(rec.sourceMetadata).value))
    else None
  }

  /**
   * `load_item(staged_path, storage, force)`, given the values `p` that
   * `store_entity` derives from the record (its content hash, merged
   * metadata, title and shredded facts). Change detection runs on the
   * record's own `content_hash`; unless forced, a known id with that hash is
   * "unchanged" and nothing is written. Otherwise the record is stored and
   * reported "created" when the id was new and "updated" when it was not.
   * Every failure reports the file's stem with "error"; a failure inside the
   * store keeps the writes that came before it.
   */
  function LoadWith(t: Tables, file: StagedFile, force: bool, now: nat, p: Prepared): LoadResult {
    match ReadRecord(file.content)
    case None => LoadResult(t, file.stem, Error)
    case Some(rec) =>
      var status := Status(t, rec.entityId, rec.contentHash);
      if !force && !status.0 && !status.1 then LoadResult(t, rec.entityId, Unchanged)
      else
        match StoreRequestOf(rec)
        case None => LoadResult(t, file.stem, Error)
        case Some(req) =>
          var res := StoreSpec(t, req, p, now);
          if res.outcome.Failure? then LoadResult(res.tables, file.stem, Error)
          else LoadResult(res.tables, rec.entityId, if status.0 then Created else Updated)
  }

  /** The `store_entity` request of a file, when it has one. */
  function RequestOf(file: StagedFile): Option<StoreRequest> {
    match ReadRecord(file.content)
    case None => None
    case Some(rec) => StoreRequestOf(rec)
  }

  /**
   * The values the store derives from the file's request. A file without a
   * request never reaches the store, and its placeholder value is not read.
   */
  function PreparedOf(file: StagedFile): Prepared {
    match RequestOf(file)
    case None => Prepared("", map[], Null, Success([]))
    case Some(req) => Prepare(req)
  }

  /** `load_item` itself: the store derives its values from the record's request. */
  function LoadSpec(t: Tables, file: StagedFile, force: bool, now: nat): LoadResult {
    LoadWith(t, file, force, now, PreparedOf(file))
  }

  /**
   * The derived values are those of the record: the hash of its content, and
   * shredded facts that all belong to its entity.
   */
  lemma PreparedOfRequest(file: StagedFile)
    requires RequestOf(file).Some?
    ensures PreparedOf(file).contentHash == ContentHash(RequestOf(file).value.rawContent)
    ensures RowsOfDoc(PreparedOf(file).shredded, RequestOf(file).value.entityId)
  {
    var req := RequestOf(file).value;
    if Prepare(req).shredded.Success? {
      ShredRowsBelongToDoc(req.entityId, req.sourceType, req.structuredData);
    }
  }

  /** A staged record whose hash is the one the store computes from its content. */
  predicate HashConsistent(rec: StagedRecord) {
    rec.contentHash == Str(ContentHash(rec.contentMd))
  }

  /**
   * What each status means, whatever the derived values. "created": the id
   * was unknown and now has a document. "updated": the id was known, and the
   * call was forced or the record's hash differs from the stored one.
   * "unchanged": not forced, the stored hash equals the record's, and the
   * tables are untouched. "error": the entity id reported is the file's stem.
   */
  lemma LoadStatusMeaning(t: Tables, file: StagedFile, force: bool, now: nat, p: Prepared)
    ensures var r := LoadWith(t, file, force, now, p);
            var rec := ReadRecord(file.content);
            && (r.status == Created ==> rec.Some? && r.entityId == rec.value.entityId
                                        && rec.value.entityId !in t.documents && rec.value.entityId in r.tables.documents)
            && (r.status == Updated ==> rec.Some? && r.entityId == rec.value.entityId && rec.value.entityId in t.documents
                                        && (force || Str(t.documents[rec.value.entityId].contentHash) != rec.value.contentHash))
            && (r.status == Unchanged ==> rec.Some? && r.entityId == rec.value.entityId && !force && r.tables == t
                                          && rec.value.entityId in t.documents
                                          && Str(t.documents[rec.value.entityId].contentHash) == rec.value.contentHash)
            && (r.status == Error ==> r.entityId == file.stem)
  {
    var r := LoadWith(t, file, force, now, p);
    if r.status == Created {
      var rec := ReadRecord(file.content).value;
      var req := StoreRequestOf(rec).value;
      StoreLeavesDocument(t, req, p, now);
    }
  }

  /** After the document phase, and whatever the facts phase does, the stored id has a document. */
  lemma StoreLeavesDocument(t: Tables, req: StoreRequest, p: Prepared, now: nat)
    ensures req.entityId in StoreSpec(t, req, p, now).tables.documents
  {
    var t1 := DocumentPhase(t, req, p, now);
    assert req.entityId in t1.documents;
  }

  /**
   * An unreadable file, one that is not a JSON object, or one without the
   * three required keys or with a non-text id or source type, is an error
   * that writes nothing.
   */
  lemma LoadUnreadable(t: Tables, file: StagedFile, force: bool, now: nat, p: Prepared)
    requires ReadRecord(file.content).None?
    ensures LoadWith(t, file, force, now, p) == LoadResult(t, file.stem, Error)
  {
  }

  /**
   * A record whose `extracted` is not a dict, or whose `source_metadata` is
   * truthy but not a dict, is an error (or, unforced and unchanged,
   * "unchanged") that writes nothing.
   */
  lemma LoadBadValues(t: Tables, file: StagedFile, force: bool, now: nat, p: Prepared)
    requires ReadRecord(file.content).Some? && RequestOf(file).None?
    ensures var r := LoadWith(t, file, force, now, p);
            r.tables == t && r.status != Created && r.status != Updated
  {
  }

  /** Loading keeps the store's invariant, whatever the status, when the derived facts belong to the record. */
  lemma LoadWithKeepsValid(t: Tables, file: StagedFile, force: bool, now: nat, p: Prepared)
    requires TablesValid(t)
    requires RequestOf(file).Some? ==> RowsOfDoc(p.shredded, RequestOf(file).value.entityId)
    ensures TablesValid(LoadWith(t, file, force, now, p).tables)
  {
    if RequestOf(file).Some? {
      StoreKeepsValid(t, RequestOf(file).value, p, now);
    }
  }

  /** `load_item` keeps the store's invariant. */
  lemma LoadKeepsValid(t: Tables, file: StagedFile, force: bool, now: nat)
    requires TablesValid(t)
    ensures TablesValid(LoadSpec(t, file, force, now).tables)
  {
    if RequestOf(file).Some? {
      PreparedOfRequest(file);
    }
    LoadWithKeepsValid(t, file, force, now, PreparedOf(file));
  }

  /**
   * An error raised while the record's facts are written does not undo the
   * document row and audit row written before it: the id then has a
   * document carrying the derived hash.
   */
  lemma LoadErrorKeepsDocument(t: Tables, file: StagedFile, force: bool, now: nat, p: Prepared)
    requires ReadRecord(file.content).Some? && RequestOf(file).Some?
    requires var rec := ReadRecord(file.content).value;
             force || Status(t, rec.entityId, rec.contentHash) != (false, false)
    requires var req := RequestOf(file).value;
             Status(t, req.entityId, Str(p.contentHash)) != (false, false) && p.shredded.Failure?
    ensures var r := LoadWith(t, file, force, now, p);
            var req := RequestOf(file).value;
            r.status == Error && req.entityId in r.tables.documents
            && r.tables.documents[req.entityId].contentHash == p.contentHash
            && |r.tables.audit| == |t.audit| + 1
  {
    var req := RequestOf(file).value;
    if req.entityId in t.documents {
      StoreChanged(t, req, p, now);
    } else {
      StoreNew(t, req, p, now);
    }
  }

  /**
   * Re-running is safe: after a load that reached the store, or found the
   * record unchanged, loading the same file again without `force` reports
   * "unchanged" and writes nothing, provided the derived hash is the
   * record's own.
   */
  lemma LoadWithTwice(t: Tables, file: StagedFile, force: bool, now1: nat, now2: nat, p: Prepared)
    requires ReadRecord(file.content).Some? && RequestOf(file).Some?
    requires Str(p.contentHash) == ReadRecord(file.content).value.contentHash
    ensures var first := LoadWith(t, file, force, now1, p);
            LoadWith(first.tables, file, false, now2, p)
              == LoadResult(first.tables, ReadRecord(file.content).value.entityId, Unchanged)
  {
    var rec := ReadRecord(file.content).value;
    var status := Status(t, rec.entityId, rec.contentHash);
    if force || status.0 || status.1 {
      StatusAfterStore(t, RequestOf(file).value, p, now1);
    }
  }

  /**
   * `load_item` run twice on a well-formed staged file, whose hash is that
   * of its content as the transform step writes it, reports "unchanged" the
   * second time and writes nothing.
   */
  lemma LoadTwice(t: Tables, file: StagedFile, force: bool, now1: nat, now2: nat)
    requires ReadRecord(file.content).Some? && HashConsistent(ReadRecord(file.content).value)
    requires RequestOf(file).Some?
    ensures var first := LoadSpec(t, file, force, now1);
            LoadSpec(first.tables, file, false, now2)
              == LoadResult(first.tables, ReadRecord(file.content).value.entityId, Unchanged)
  {
    var rec := ReadRecord(file.content).value;
    var p := PreparedOf(file);
    PreparedOfRequest(file);
    assert RequestOf(file).value.rawContent == rec.contentMd;
    assert Str(p.contentHash) == rec.contentHash;
    LoadWithTwice(t, file, force, now1, now2, p);
  }

  /** A forced reload of unchanged content reports "updated" and only moves the extraction time. */
  lemma ForcedReloadOfUnchanged(t: Tables, file: StagedFile, now: nat, p: Prepared)
    requires ReadRecord(file.content).Some? && RequestOf(file).Some?
    requires var id := ReadRecord(file.content).value.entityId;
             id in t.documents && Str(t.documents[id].contentHash) == ReadRecord(file.content).value.contentHash
             && Str(p.contentHash) == ReadRecord(file.content).value.contentHash
    ensures var id := ReadRecord(file.content).value.entityId;
            LoadWith(t, file, true, now, p)
              == LoadResult(t.(documents := t.documents[id := t.documents[id].(lastExtractedAt := now)]), id, Updated)
  {
    StoreUnchanged(t, RequestOf(file).value, p, now);
  }

  /** `load_item` against the store object. */
  method LoadItem(store: StarSchemaStore, file: StagedFile, force: bool, now: nat)
    returns (entityId: string, status: LoadStatus)
    requires store.Valid()
    modifies store
    ensures store.Valid()
    ensures LoadResult(store.State(), entityId, status) == LoadSpec(old(store.State()), file, force, now)
  {
    var rec := ReadRecord(file.content);
    if rec.None? {
      return file.stem, Error;
    }
    var r := rec.value;
    var isNew, hasChanged := store.CheckDocumentStatus(r.entityId, r.contentHash);
    if !force && !isNew && !hasChanged {
      return r.entityId, Unchanged;
    }
    var req := StoreRequestOf(r);
    if req.None? {
      return file.stem, Error;
    }
    var metadata := new MetadataDict(req.value.metadata);
    var outcome := store.StoreEntity(r.entityId, r.sourceType, req.value.sourceUrl, req.value.rawContent,
                                     req.value.structuredData, metadata, now);
    if outcome.Failure? {
      return file.stem, Error;
    }
    entityId := r.entityId;
    status := if isNew then Created else Updated;
  }

  // ------------------------------------------------------------- the run

  /** The four counts of a run: the dict keys "created", "updated", "unchanged" and "error". */
  datatype Counts = Counts(created: nat, updated: nat, unmodified: nat, errors: nat)

  /** `counts[status] += 1`. */
  function Bump(c: Counts, s: LoadStatus): (r: Counts)
    ensures Total(r) == Total(c) + 1
  {
    match s
    case Created => c.(created := c.created + 1)
    case Updated => c.(updated := c.updated + 1)
    case Unchanged => c.(unmodified := c.unmodified + 1)
    case Error => c.(errors := c.errors + 1)
  }

  function Total(c: Counts): nat {
    c.created + c.updated + c.unmodified + c.errors
  }

  /** `[f for f in staged_files if f.exists()]`. */
  function Existing(files: seq<StagedFile>): (r: seq<StagedFile>)
    ensures |r| <= |files|
  {
    if files == [] then []
    else Existing(files[..|files| - 1]) + (if files[|files| - 1].present then [files[|files| - 1]] else [])
  }

  /** The kept files are exactly the existing ones, in order. */
  lemma {:induction false} ExistingMembers(files: seq<StagedFile>, f: StagedFile)
    ensures f in Existing(files) <==> f in files && f.present
  {
    if files != [] {
      var init := files[..|files| - 1];
      ExistingMembers(init, f);
      assert files == init + [files[|files| - 1]];
    }
  }

  /** The tables and counts after loading the files one after the other. */
  function LoadAllSpec(t: Tables, files: seq<StagedFile>, force: bool, now: nat): (Tables, Counts) {
    if files == [] then (t, Counts(0, 0, 0, 0))
    else
      var before := LoadAllSpec(t, files[..|files| - 1], force, now);
      var r := LoadSpec(before.0, files[|files| - 1], force, now);
      (r.tables, Bump(before.1, r.status))
  }

  /** Loading one more file continues from the tables and counts of the files before it. */
  lemma LoadAllSpecSnoc(t: Tables, files: seq<StagedFile>, i: nat, force: bool, now: nat)
    requires i < |files|
    ensures var before := LoadAllSpec(t, files[..i], force, now);
            var r := LoadSpec(before.0, files[i], force, now);
            LoadAllSpec(t, files[..i + 1], force, now) == (r.tables, Bump(before.1, r.status))
  {
    assert files[..i + 1][..i] == files[..i];
  }

  /** Each file is counted exactly once. */
  lemma {:induction false} LoadAllCountsTotal(t: Tables, files: seq<StagedFile>, force: bool, now: nat)
    ensures Total(LoadAllSpec(t, files, force, now).1) == |files|
  {
    if files != [] {
      LoadAllCountsTotal(t, files[..|files| - 1], force, now);
    }
  }

  /** A run keeps the store's invariant. */
  lemma {:induction false} LoadAllKeepsValid(t: Tables, files: seq<StagedFile>, force: bool, now: nat)
    requires TablesValid(t)
    ensures TablesValid(LoadAllSpec(t, files, force, now).0)
  {
    if files != [] {
      LoadAllKeepsValid(t, files[..|files| - 1], force, now);
      LoadKeepsValid(LoadAllSpec(t, files[..|files| - 1], force, now).0, files[|files| - 1], force, now);
    }
  }

  /**
   * `load_all` over the candidate files: only the existing ones are loaded,
   * in order, and each adds one to the count of its status.
   */
  method LoadAll(store: StarSchemaStore, candidates: seq<StagedFile>, force: bool, now: nat) returns (counts: Counts)
    requires store.Valid()
    modifies store
    ensures store.Valid()
    ensures (store.State(), counts) == LoadAllSpec(old(store.State()), Existing(candidates), force, now)
  {
    var files := Existing(candidates);
    counts := Counts(0, 0, 0, 0);
    var i := 0;
    while i < |files|
      invariant 0 <= i <= |files|
      invariant store.Valid()
      invariant (store.State(), counts) == LoadAllSpec(old(store.State()), files[..i], force, now)
    {
      LoadAllSpecSnoc(old(store.State()), files, i, force, now);
      var entityId, status := LoadItem(store, files[i], force, now);
      counts := Bump(counts, status);
      i := i + 1;
    }
    assert files[..i] == files;
  }
}
