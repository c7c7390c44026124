# structure-it: a verified model of the star-schema pipeline core

structure-it turns unstructured documents (policies, meeting agendas,
papers) into structured records with a language model, and keeps them
in a DuckDB star schema. This project models the deterministic core of that
pipeline in Dafny and proves what it promises.

- **The star-schema store** (`star_schema_storage.dfy`, `shredding.dfy`).
  There are three tables: a document dimension keyed by document id, a fact
  table of atomic items keyed by item id, and an append-only audit table.
  `StarSchemaStore` holds them as fields. Its methods are proved against
  transition functions on `Tables`: change detection, the create / update /
  touch state machine, the metadata and title rules, rule-driven shredding
  of nested lists into facts, `INSERT OR REPLACE` of facts, cascade delete,
  listing, counting and filtered context retrieval. The property filters
  follow DuckDB's `json_extract_string`: dotted paths into nested objects,
  and JSON text for lists and dicts.
- **Identifiers** (`hashing.dfy`, `sha256.dfy`). `generate_id` is the lowercase
  hex SHA-256 digest of the UTF-8 encoding of the concatenated components.
  SHA-256 follows FIPS 180-4 on 32-bit bit-vectors.
- **JSON values and string built-ins** (`json_value.dfy`, `text.dfy`,
  `path_names.dfy`). `dict.get`, `str()`, `find`, `strip`, `lower`, `split`,
  `rfind`, zero-filled formatting, and `PurePath.name` / `PurePath.stem`.
- **The policy-requirements schema and extractor** (`policy_requirements.dfy`,
  `policy_extractor.dfy`). Requirement counts, requirement ids, the
  extraction prompt, metadata validation, and the post-processing of the
  language model's answer.
- **Source highlighting** (`highlight.dfy`). `locate_source_indices` and the
  highlight loop of the server's extraction endpoint.
- **The CivicPlus AgendaCenter spider** (`civic_spider.dfy`,
  `url_parsing.dfy`). The committee name, the anchor date, the
  PreviousVersions skip, asset classification, and URL joining as Python's
  `urllib.parse.urljoin` does it: cleaning, splitting, dot-segment removal
  and reassembly.
- **The ETL load step** (`etl_load.dfy`). `load_item`'s status decision and
  `load_all`'s tally, over the modelled store.
- **The metadata generator** (`metadata_scan.dfy`, `metadata_datasets.dfy`).
  This is `scripts/generate_metadata_only.py`: filename parsing, title,
  type, version, date and complexity derivation, the micro and full
  datasets, the summary tallies and the flag defaulting.
- **The example's metadata lookup** (`metadata_lookup.dfy`). This is
  `examples/extract_policy_requirements.py`: matching by filename and then by
  stem, the interactive prompt, and the priority of metadata sources.

Where the code and its documentation or tests disagree, the model follows
the code:

- The extractor's default model is `gemini-2.5-flash-lite`, as
  `src/structure_it/extractors/policy_extractor.py:23` sets it. The docstring
  and `tests/test_policy_extractor.py:21-24` say `gemini-2.5-flash`.
- Extra fields on a requirement record are ignored (`extra="ignore"`). They are
  not rejected, although `tests/test_policy_requirements.py:249-258` expects
  that.
- A committee header that is present but only whitespace is truthy, so the
  committee name is the empty string. It is not "Unknown Committee".
- The path-segment check at `src/structure_it/scrapers/civic_plus/spider.py:94-102`
  computes a candidate type that is never used. Only the string matching
  that follows it decides the asset type.
- `extract` records `model_used = self.model_name`, the constructor's value
  (`src/structure_it/extractors/policy_extractor.py:208`). An extractor built
  with `model_name=None` records `None`, although the Gemini extractor calls
  its default model. A default extractor records `gemini-2.5-flash-lite`;
  `tests/test_policy_extractor.py:230` expects `gemini-2.5-flash`.

## Model

| member | source | states |
|---|---|---|
| `Hashing.HexDigest` | src/structure_it/utils/hashing.py:45 | the hex digest has two characters per byte, all lowercase hexadecimal |
| `Hashing.HexByteInjective` | src/structure_it/utils/hashing.py:45 | two bytes with the same two-character rendering are the same byte |
| `Hashing.HexDigestInjective` | src/structure_it/utils/hashing.py:45 | distinct digests have distinct hexadecimal renderings (proved by induction) |
| `Hashing.GenerateId` | src/structure_it/utils/hashing.py:11-45 | every id is 64 lowercase hexadecimal characters, as the docstring promises |
| `Hashing.GenerateIdEqualIff` | src/structure_it/utils/hashing.py:11-45 | two component lists give the same id exactly when SHA-256 agrees on the UTF-8 encodings of their concatenations |
| `Hashing.GenerateIdDependsOnlyOnConcat` | src/structure_it/utils/hashing.py:39 | components with the same concatenation give the same id (determinism, and the boundaries are lost) |
| `Hashing.BoundaryCollision` | src/structure_it/utils/hashing.py:39 | a concrete collision: `("ab", "c")` and `("a", "bc")` give the same id |
| `Hashing.GenerateEntityId` | src/structure_it/utils/hashing.py:48-62 | the entity id is the id of the single string `source_url + entity_type`, and is a 64-character hex id |
| `Hashing.GenerateRelationshipId` | src/structure_it/utils/hashing.py:65-80 | the relationship id is the id of `source_id + target_id + relationship_type`, and is a 64-character hex id |
| `Hashing.GenerateContentId` | src/structure_it/utils/hashing.py:83-99 | the content id is the hex SHA-256 digest of the UTF-8 bytes of the content |
| `Sha256.Utf8Char` | src/structure_it/utils/hashing.py:42 | one character encodes to one to four bytes, and to its own code as one byte exactly when it is ASCII |
| `Sha256.Utf8` | src/structure_it/utils/hashing.py:42 | `encode("utf-8")` never yields fewer bytes than characters |
| `Sha256.Utf8Append` | src/structure_it/utils/hashing.py:42 | UTF-8 encoding distributes over concatenation |
| `Sha256.Utf8Ascii` | src/structure_it/utils/hashing.py:42 | an ASCII string encodes to its character codes, one byte each |
| `Sha256.ZeroCount` | src/structure_it/utils/hashing.py:42 | the zero padding of FIPS 180-4 section 5.1.1 is under 64 bytes and brings the length with the 0x80 byte and the 8 length bytes to a multiple of 64 |
| `Sha256.Pad` | src/structure_it/utils/hashing.py:42 | the padded message is a whole number of 64-byte blocks, longer than the message and starting with it |
| `Sha256.Digest` | src/structure_it/utils/hashing.py:42-45 | `sha256(...).digest()` is 32 bytes |
| `Shredding.ShreddingRules` | src/structure_it/storage/star_schema_storage.py:68-108 | the rule table has five entries with pairwise distinct list keys |
| `Shredding.RuleKeysExactly` | src/structure_it/storage/star_schema_storage.py:74-108 | a key is shredded exactly when it is one of `requirements`, `sections`, `agenda_items`, `votes`, `public_comments` |
| `Shredding.PlaceholderEmbedding` | src/structure_it/storage/star_schema_storage.py:263 | the embedding is 768 zeros |
| `Shredding.ItemContent` | src/structure_it/storage/star_schema_storage.py:244-248 | a dict element's content is its content field (default `""`), with `" " + description` appended when the description is truthy; the `+=` raises exactly when a description is present and the content is neither a string nor a list |
| `Shredding.ItemSeed` | src/structure_it/storage/star_schema_storage.py:254-255 | the id seed is always truthy: the id field when it is truthy, else `list_key_i` |
| `Shredding.ElementFact` | src/structure_it/storage/star_schema_storage.py:235-274 | an element becomes a fact exactly when it is a string, or a dict whose description can be appended; every fact carries the document id, the domain, the rule's item type and the placeholder embedding |
| `Shredding.StringElementFact` | src/structure_it/storage/star_schema_storage.py:237-241 | a string element is its own content, with empty properties, no location and the id of `doc_id + list_key_i` |
| `Shredding.DictElementFact` | src/structure_it/storage/star_schema_storage.py:243-260 | a dict element keeps every field except the content field as properties, takes its id from its seed and its location from the location field |
| `Shredding.ListsOf` | src/structure_it/storage/star_schema_storage.py:232-233 | one list per rule, the one that rule reads from the record |
| `Shredding.ShredDocument` | src/structure_it/storage/star_schema_storage.py:228-274 | the loops compute the shredding specification of the record, its domain taken from `policy_type` with the source type as default |
| `Shredding.ShredRecord` | src/structure_it/storage/star_schema_storage.py:232-274 | the outer loop over the rule table computes the specification over every rule |
| `Shredding.ShredElements` | src/structure_it/storage/star_schema_storage.py:235-274 | the inner `enumerate` loop computes the specification over one list |
| `Shredding.ShredListStep` | src/structure_it/storage/star_schema_storage.py:235-274 | one more element appends its row, or ends the list with its error |
| `Shredding.ShredRulesStep` | src/structure_it/storage/star_schema_storage.py:232-274 | one more rule appends its list's rows |
| `Shredding.ShredListFailurePersists` | src/structure_it/storage/star_schema_storage.py:235-248 | once an element raises, the rest of the list does not change the outcome |
| `Shredding.ShredRulesFailurePersists` | src/structure_it/storage/star_schema_storage.py:232-248 | once a rule's list raises, the later rules do not change the outcome |
| `Shredding.ShredListShape` | src/structure_it/storage/star_schema_storage.py:235-274 | a list shreds exactly when every element does, and row `k` is then element `k`'s fact |
| `Shredding.OffsetMonotone` | src/structure_it/storage/star_schema_storage.py:232-235 | the running row offset only grows along the rule table |
| `Shredding.ShredRulesSucceeds` | src/structure_it/storage/star_schema_storage.py:232-274 | the first `m` rules shred exactly when all their elements do |
| `Shredding.LaidOutAppend` | src/structure_it/storage/star_schema_storage.py:232-274 | appending one more list's rows extends the rule-by-rule layout |
| `Shredding.ShredRulesLaidOut` | src/structure_it/storage/star_schema_storage.py:232-274 | the rows are laid out list by list in table order, each list in index order |
| `Shredding.ShredSucceeds` | src/structure_it/storage/star_schema_storage.py:228-274 | storing a record raises exactly when some element of a shredded list is malformed |
| `Shredding.ShredLayout` | src/structure_it/storage/star_schema_storage.py:228-274 | a record that shreds yields exactly one fact per element of its shredded lists, in table then index order |
| `Shredding.ShredListHeaders` | src/structure_it/storage/star_schema_storage.py:265-274 | when every element's row has its rule's header columns, so has every row of the list |
| `Shredding.ShredRulesHeaders` | src/structure_it/storage/star_schema_storage.py:232-274 | every row of the first `m` lists has some rule's header columns |
| `Shredding.ShredRowsBelongToDoc` | src/structure_it/storage/star_schema_storage.py:228-274 | every fact belongs to the document, carries its domain and the placeholder embedding, and names a rule's item type |
| `Shredding.NonListContributesNothing` | src/structure_it/storage/star_schema_storage.py:233 | a rule whose key is missing or not a list contributes no fact |
| `StarSchemaStorage.LastAudit` | src/structure_it/storage/star_schema_storage.py:169-175 | the latest audit row of a document is an audit row about that document |
| `StarSchemaStorage.LastAuditAppend` | src/structure_it/storage/star_schema_storage.py:169-175 | an appended audit row becomes the latest for its document and for no other |
| `StarSchemaStorage.WriteDocumentKeepsValid` | src/structure_it/storage/star_schema_storage.py:151-214 | writing a document together with the audit row that records its hash keeps every document consistent with its latest audit row |
| `StarSchemaStorage.UpsertKeepsValid` | src/structure_it/storage/star_schema_storage.py:277-285 | inserting rows of a stored document keeps every fact pointing at a stored document |
| `StarSchemaStorage.ContentHash` | src/structure_it/storage/star_schema_storage.py:130 | the content hash is the 64-character id of the raw content |
| `StarSchemaStorage.Status` | src/structure_it/storage/star_schema_storage.py:45-66 | never both new and changed; new exactly when no document has the id; changed exactly when the stored hash differs |
| `StarSchemaStorage.CopyExcept` | src/structure_it/storage/star_schema_storage.py:143-146 | the copy loop keeps the base entries and overrides them with every non-excluded entry of the record |
| `StarSchemaStorage.ListsToShred` | src/structure_it/storage/star_schema_storage.py:140 | `lists_to_shred` holds exactly the record's keys that the rule table names |
| `StarSchemaStorage.WithExtraFields` | src/structure_it/storage/star_schema_storage.py:136-146 | the metadata holds the caller's entries, overridden by every extra field of the record |
| `StarSchemaStorage.MetadataExclusion` | src/structure_it/storage/star_schema_storage.py:138-146 | rule keys, `content` and `paragraphs` never reach the metadata from the record, whatever their value; every other record key does, with its value |
| `StarSchemaStorage.Title` | src/structure_it/storage/star_schema_storage.py:149 | the title is always truthy: `title` when truthy, else `policy_title` when truthy, else `"Untitled"` |
| `StarSchemaStorage.RemoveDocFacts` | src/structure_it/storage/star_schema_storage.py:217 | the delete keeps exactly the facts of other documents, unchanged |
| `StarSchemaStorage.LastWithId` | src/structure_it/storage/star_schema_storage.py:277-285 | the row found for an id is one of the rows and has that id |
| `StarSchemaStorage.ItemIds` | src/structure_it/storage/star_schema_storage.py:265-274 | one item id per row, in row order |
| `StarSchemaStorage.LastWithIdIsLast` | src/structure_it/storage/star_schema_storage.py:277-285 | a row is found exactly when some row has the id, and it is the one with the highest index |
| `StarSchemaStorage.UpsertLookup` | src/structure_it/storage/star_schema_storage.py:277-285 | `INSERT OR REPLACE`: an id is in the table afterwards exactly when it was there or a row has it, and then holds the last such row; other ids keep their row |
| `StarSchemaStorage.DistinctCount` | src/structure_it/storage/star_schema_storage.py:277-285 | a sequence has at most as many distinct strings as elements, exactly as many when none repeats |
| `StarSchemaStorage.RowIdsCount` | src/structure_it/storage/star_schema_storage.py:277-285 | at most as many item ids as rows, exactly as many when the ids are distinct |
| `StarSchemaStorage.DocumentPhaseKeepsValid` | src/structure_it/storage/star_schema_storage.py:151-224 | the document phase keeps the table invariant and leaves a document under the stored id |
| `StarSchemaStorage.ChangedDocumentKeepsValid` | src/structure_it/storage/star_schema_storage.py:177-217 | the update branch keeps the table invariant |
| `StarSchemaStorage.ShreddedKeepsValid` | src/structure_it/storage/star_schema_storage.py:226-285 | the facts phase keeps the invariant when the rows belong to a stored document |
| `StarSchemaStorage.StoreKeepsValid` | src/structure_it/storage/star_schema_storage.py:110-285 | `store_entity` keeps the table invariant, whatever its outcome |
| `StarSchemaStorage.StatusAfterStore` | src/structure_it/storage/star_schema_storage.py:45-66 | after a store, the same content hash is reported as neither new nor changed |
| `StarSchemaStorage.StoreNew` | src/structure_it/storage/star_schema_storage.py:151-175 | a new document is inserted at version 1 with the content's hash and one `create` audit row, and its rows are upserted when shredding succeeds |
| `StarSchemaStorage.StoreChanged` | src/structure_it/storage/star_schema_storage.py:177-217 | changed content bumps the version by exactly one, replaces title, metadata, blob and hash, keeps source type and url, writes one `update` audit row with both hashes and `Updated to version N`, and deletes the old facts before the new rows go in |
| `StarSchemaStorage.StoreUnchanged` | src/structure_it/storage/star_schema_storage.py:219-228 | unchanged content only moves `last_extracted_at`: no audit row, no fact written or deleted, no error |
| `StarSchemaStorage.StoreTwice` | src/structure_it/storage/star_schema_storage.py:110-285 | storing identical content twice is idempotent on documents (but for the extraction time), audit and facts |
| `StarSchemaStorage.StoreAuditAppendOnly` | src/structure_it/storage/star_schema_storage.py:169-214 | a store only appends to the audit table, at most one row |
| `StarSchemaStorage.UpsertDocFacts` | src/structure_it/storage/star_schema_storage.py:277-285 | upserting a document's rows into a table holding none of its facts leaves exactly the rows' ids, each with its last row, and keeps every other id |
| `StarSchemaStorage.StoreFactsOfDoc` | src/structure_it/storage/star_schema_storage.py:217-285 | after a new or changed store the document's facts are exactly the rows' ids, each the last row with that id, one fact per row exactly when the ids are distinct |
| `StarSchemaStorage.StoreOtherFacts` | src/structure_it/storage/star_schema_storage.py:217-285 | another document's fact survives a store unchanged unless a stored row reuses its item id, which then moves it to the stored document |
| `StarSchemaStorage.ToStoredEntity` | src/structure_it/storage/star_schema_storage.py:307-324 | the rebuilt structured data is the metadata plus `title`, holding the stored title |
| `StarSchemaStorage.Lookup` | src/structure_it/storage/star_schema_storage.py:287-324 | `get_entity` finds an entity exactly when a document has the id |
| `StarSchemaStorage.LookupAfterStore` | src/structure_it/storage/star_schema_storage.py:110-324 | after a store the entity reads back: unchanged content is invisible; otherwise the raw content, metadata and title are the request's, and an update keeps the first source type, url and creation time |
| `StarSchemaStorage.DeleteKeepsValid` | src/structure_it/storage/star_schema_storage.py:373-380 | deleting keeps the table invariant |
| `StarSchemaStorage.DeleteCascades` | src/structure_it/storage/star_schema_storage.py:373-380 | deleting removes the document and all its facts and nothing else; the audit table stays |
| `StarSchemaStorage.MatchingDocs` | src/structure_it/storage/star_schema_storage.py:333-351 | the filter selects stored documents only |
| `StarSchemaStorage.CountBounds` | src/structure_it/storage/star_schema_storage.py:382-392 | a count never exceeds the number of documents, and without a (truthy) filter it is that number |
| `StarSchemaStorage.SubsetCard` | src/structure_it/storage/star_schema_storage.py:382-392 | a subset has no more elements |
| `StarSchemaStorage.StoreDocuments` | src/structure_it/storage/star_schema_storage.py:151-224 | a store writes the document under its id and no other; stored source types stay |
| `StarSchemaStorage.MatchingAfterInsert` | src/structure_it/storage/star_schema_storage.py:382-392 | after gaining at most one id, the filter selects the old matches plus that id when it is new and of a selected type |
| `StarSchemaStorage.CountAfterStore` | src/structure_it/storage/star_schema_storage.py:382-392 | a store adds one to the count exactly when it inserts a new document of a selected type |
| `StarSchemaStorage.CountAfterDelete` | src/structure_it/storage/star_schema_storage.py:373-392 | a delete takes one off the count exactly when it removes a document of a selected type |
| `StarSchemaStorage.ListingCount` | src/structure_it/storage/star_schema_storage.py:326-392 | an unpaged listing has as many entries as `count_entities` reports for the same filter |
| `StarSchemaStorage.Page` | src/structure_it/storage/star_schema_storage.py:340-351 | `LIMIT ? OFFSET ?` keeps the entries from the offset on, at most `limit` of them |
| `StarSchemaStorage.JsonExtractString` | src/structure_it/storage/star_schema_storage.py:427-429 | the key's dot-separated components navigate nested objects; SQL NULL exactly when the path reaches nothing or a JSON null; a string gives itself, a list or dict its JSON text; for an undotted key, non-NULL exactly when the key is present and not null |
| `StarSchemaStorage.JsonEscapeChar` | src/structure_it/storage/star_schema_storage.py:427-429 | a character is written as itself exactly when it is not the quote, the backslash or a control character; those get a backslash escape of two or six characters |
| `StarSchemaStorage.JsonUnescapeEscape` | src/structure_it/storage/star_schema_storage.py:427-429 | reading back the escaped characters of a JSON string gives the original string |
| `StarSchemaStorage.JsonString` | src/structure_it/storage/star_schema_storage.py:427-429 | a JSON string literal is quoted and reads back to its string |
| `StarSchemaStorage.JsonStringInjective` | src/structure_it/storage/star_schema_storage.py:427-429 | distinct strings are written as distinct JSON literals |
| `StarSchemaStorage.JsonText` | src/structure_it/storage/star_schema_storage.py:427-429 | the JSON text of a string is its literal, of an integer its digits, of a list something in brackets, of a dict something in braces |
| `StarSchemaStorage.Navigate` | src/structure_it/storage/star_schema_storage.py:427-429 | an empty path reaches the value itself; a path whose first key is not a member of an object reaches nothing |
| `StarSchemaStorage.JsonExtractNested` | src/structure_it/storage/star_schema_storage.py:427-429 | the dotted key `a.b` reaches `"x"` in `{"a": {"b": "x"}}` |
| `StarSchemaStorage.JsonExtractList` | src/structure_it/storage/star_schema_storage.py:427-429 | a list property is compared as its JSON text, `["x"]`, not skipped |
| `StarSchemaStorage.MatchingFacts` | src/structure_it/storage/star_schema_storage.py:409-430 | the join and the filters select stored facts only |
| `StarSchemaStorage.NoFilterSelectsAll` | src/structure_it/storage/star_schema_storage.py:417-419 | under the invariant the join loses no fact: without filters all facts are selected |
| `StarSchemaStorage.FiltersNarrow` | src/structure_it/storage/star_schema_storage.py:425-430 | more filters select fewer facts |
| `StarSchemaStorage.MatchedFactHasFilters` | src/structure_it/storage/star_schema_storage.py:425-430 | a selected fact's properties reach a value along every filter's path; an undotted filter key is a property, equal to the filter's value when it holds a string |
| `StarSchemaStorage.NestedFilterMatches` | src/structure_it/storage/star_schema_storage.py:425-430 | a fact of a stored document whose property `a` is `{b: x}` is selected by the filter `a.b = x` |
| `StarSchemaStorage.Newest` | src/structure_it/storage/star_schema_storage.py:339 | a non-empty set of documents has a newest one |
| `StarSchemaStorage.CopyExceptPointwise` | src/structure_it/storage/star_schema_storage.py:143-146 | a dict with the keys and values the copy loop describes is that copy |
| `StarSchemaStorage.NewestFirst` | src/structure_it/storage/star_schema_storage.py:339 | `ORDER BY created_at DESC`: each selected id once, none other, in non-increasing creation time |
| `StarSchemaStorage.PickedCount` | src/structure_it/storage/star_schema_storage.py:437-440 | distinct picks that include every match seen are no more than the matches, and all of them once every key was seen |
| `StarSchemaStorage.TakeMatching` | src/structure_it/storage/star_schema_storage.py:437-440 | the `LIMIT` scan picks `min(limit, matches)` distinct matching keys |
| `StarSchemaStorage.MetadataDict.constructor` | src/structure_it/storage/star_schema_storage.py:117 | the caller's metadata dict holds the given entries |
| `StarSchemaStorage.StarSchemaStore.constructor` | src/structure_it/storage/star_schema_storage.py:21-43 | a fresh schema: three empty tables, satisfying the invariant |
| `StarSchemaStorage.StarSchemaStore.CheckDocumentStatus` | src/structure_it/storage/star_schema_storage.py:45-66 | returns the `(is_new, has_changed)` pair of `Status` |
| `StarSchemaStorage.StarSchemaStore.WriteDocument` | src/structure_it/storage/star_schema_storage.py:151-224 | the three branches of the document phase, as `DocumentPhase` describes |
| `StarSchemaStorage.StarSchemaStore.InsertOrReplace` | src/structure_it/storage/star_schema_storage.py:277-285 | the batch insert upserts the rows one after the other and touches no other table |
| `StarSchemaStorage.StarSchemaStore.WriteFacts` | src/structure_it/storage/star_schema_storage.py:276-285 | writes the shredded rows, or leaves the facts and reports the error the loop raised |
| `StarSchemaStorage.StarSchemaStore.StorePrepared` | src/structure_it/storage/star_schema_storage.py:148-285 | the document phase then, for new or changed content, the facts phase; the new state is `StoreSpec`'s and the invariant holds |
| `StarSchemaStorage.StarSchemaStore.StoreEntity` | src/structure_it/storage/star_schema_storage.py:110-285 | `store_entity`: the new state is `StoreSpec` of the prepared request, and a non-empty caller dict is updated in place with the extra fields |
| `StarSchemaStorage.StarSchemaStore.StoreHashed` | src/structure_it/storage/star_schema_storage.py:133-285 | `store_entity` once the content hash is known, with the metadata, title and shredding it derives |
| `StarSchemaStorage.StarSchemaStore.GetEntity` | src/structure_it/storage/star_schema_storage.py:287-324 | returns the entity `Lookup` describes |
| `StarSchemaStorage.StarSchemaStore.DeleteEntity` | src/structure_it/storage/star_schema_storage.py:373-380 | deletes the facts then the document, returns true exactly when a document was deleted, and keeps the invariant |
| `StarSchemaStorage.StarSchemaStore.CountEntities` | src/structure_it/storage/star_schema_storage.py:382-392 | returns the number of documents the filter selects |
| `StarSchemaStorage.StarSchemaStore.SelectNewestFirst` | src/structure_it/storage/star_schema_storage.py:333-353 | the selected documents, each once, newest first |
| `StarSchemaStorage.StarSchemaStore.QueryEntities` | src/structure_it/storage/star_schema_storage.py:326-371 | the page of the newest-first listing, its length determined by the count, each entry rebuilt from its document |
| `StarSchemaStorage.StarSchemaStore.RetrieveContext` | src/structure_it/storage/star_schema_storage.py:394-452 | up to `limit` distinct selected facts, each with its document's title and url; the query vector is unused |
| `EtlLoad.ReadRecord` | src/structure_it/etl/load.py:41-51 | a staged file yields a record exactly when it parses to an object with a text `entity_id` and `source_type` and some `content_hash`; `url` and `content_md` are taken whatever their type, defaulting to `""`, and `extracted` and `source_metadata` default to `{}` |
| `EtlLoad.MetadataOf` | src/structure_it/storage/star_schema_storage.py:136 | `metadata or {}`: a falsy value is an empty dict, an object its fields, anything else a failure of the store |
| `EtlLoad.StoreRequestOf` | src/structure_it/etl/load.py:60-67 | the `store_entity` call exists exactly when `extracted` is an object and the metadata is usable, and then passes the record's values, the url and the content whatever their type |
| `EtlLoad.PreparedOfRequest` | src/structure_it/etl/load.py:60-67 | the values the store derives are the hash of the record's content and facts that all belong to its entity |
| `EtlLoad.LoadStatusMeaning` | src/structure_it/etl/load.py:54-74 | `created`: the id was unknown and now has a document; `updated`: it was known and the call was forced or the hash differs; `unchanged`: not forced, same hash, nothing written; `error`: the file's stem is reported |
| `EtlLoad.StoreLeavesDocument` | src/structure_it/etl/load.py:60-67 | whatever the facts phase does, the stored id has a document afterwards |
| `EtlLoad.LoadUnreadable` | src/structure_it/etl/load.py:41-47 | an unreadable file, one that is not an object, or one without the three required keys (or with a non-text id or source type) is an error that writes nothing |
| `EtlLoad.LoadBadValues` | src/structure_it/etl/load.py:48-74 | a record whose `extracted` is not an object, or whose `source_metadata` is truthy and not an object, never creates or updates and writes nothing |
| `EtlLoad.LoadWithKeepsValid` | src/structure_it/etl/load.py:26-74 | loading keeps the store's invariant, whatever the status |
| `EtlLoad.LoadKeepsValid` | src/structure_it/etl/load.py:26-74 | `load_item` keeps the store's invariant |
| `EtlLoad.LoadErrorKeepsDocument` | src/structure_it/etl/load.py:60-74 | an error while the facts are written does not undo the document and audit rows written before it |
| `EtlLoad.LoadWithTwice` | src/structure_it/etl/load.py:53-57 | after a load, loading the same file again unforced reports `unchanged` and writes nothing, when the derived hash is the record's |
| `EtlLoad.LoadTwice` | src/structure_it/etl/load.py:5-8 | "Idempotent: safe to re-run": a well-formed, hash-consistent file loaded a second time reports `unchanged` and writes nothing |
| `EtlLoad.ForcedReloadOfUnchanged` | src/structure_it/etl/load.py:56-70 | a forced reload of unchanged content reports `updated` and only moves the extraction time |
| `EtlLoad.LoadItem` | src/structure_it/etl/load.py:26-74 | `load_item` on the store object: its status and new state are `LoadSpec`'s, and the invariant holds |
| `EtlLoad.Bump` | src/structure_it/etl/load.py:108 | `counts[status] += 1` adds one to the total |
| `EtlLoad.Existing` | src/structure_it/etl/load.py:102 | the filter keeps at most the files it was given |
| `EtlLoad.ExistingMembers` | src/structure_it/etl/load.py:102 | the kept files are exactly the existing ones |
| `EtlLoad.LoadAllCountsTotal` | src/structure_it/etl/load.py:87-117 | the four counts add up to the number of files loaded |
| `EtlLoad.LoadAllKeepsValid` | src/structure_it/etl/load.py:106-108 | a run keeps the store's invariant |
| `EtlLoad.LoadAll` | src/structure_it/etl/load.py:77-117 | only the existing files are loaded, in order, each adding one to the count of its status; the new state is `LoadAllSpec`'s |
| `PolicySchema.CountType` | src/structure_it/schemas/policy_requirements.py:109-117 | a type's count never exceeds the number of requirements |
| `PolicySchema.CountUnclassified` | src/structure_it/schemas/policy_requirements.py:39 | requirements of none of the three known types are no more than all of them |
| `PolicySchema.CountTypeAppend` | src/structure_it/schemas/policy_requirements.py:109-117 | counting distributes over concatenation |
| `PolicySchema.CountTypeZeroIff` | src/structure_it/schemas/policy_requirements.py:109-117 | a count is zero exactly when no requirement has that type |
| `PolicySchema.CountTypeAllIff` | src/structure_it/schemas/policy_requirements.py:109-117 | a count equals the length exactly when every requirement has that type |
| `PolicySchema.CountsPartition` | src/structure_it/schemas/policy_requirements.py:107-126 | the three totals plus the unclassified ones add up to `total_requirements` |
| `PolicySchema.CountTypeSameTypes` | src/structure_it/schemas/policy_requirements.py:109-117 | counting reads only the types |
| `PolicySchema.PolicyRequirements.constructor` | src/structure_it/schemas/policy_requirements.py:88-105 | only the three required fields are given; every other field takes its declared default, and the (zero) totals are consistent |
| `PolicySchema.PolicyRequirements.FromRecord` | src/structure_it/schemas/policy_requirements.py:58-105 | an object holding exactly the given field values |
| `PolicySchema.PolicyRequirements.UpdateCounts` | src/structure_it/schemas/policy_requirements.py:107-117 | the three totals become the counts of their types and nothing else changes; on consistent totals it changes nothing (idempotent) |
| `PolicySchema.PolicyRequirements.TotalRequirements` | src/structure_it/schemas/policy_requirements.py:119-126 | with consistent totals, their sum is at most the number of requirements and equals it exactly when no type is unclassified |
| `PolicyExtractor.Format03` | src/structure_it/extractors/policy_extractor.py:145 | `format(index, "03d")` has at least three characters, starts with `-` exactly for a negative index, and otherwise is all digits denoting the index |
| `PolicyExtractor.RequirementId` | src/structure_it/extractors/policy_extractor.py:134-145 | the id is the policy id followed by `-REQ-` and at least three more characters |
| `PolicyExtractor.RequirementIdDigits` | src/structure_it/extractors/policy_extractor.py:144-145 | for a non-negative index the suffix after `-REQ-` is at least three digits denoting the index, exactly three below 1000 |
| `PolicyExtractor.NatToStringShort` | src/structure_it/extractors/policy_extractor.py:145 | below 1000 a number has at most three digits |
| `PolicyExtractor.ZeroFilledInjective` | src/structure_it/extractors/policy_extractor.py:145 | equal zero-filled renderings come from equal numbers |
| `PolicyExtractor.Format03Negative` | src/structure_it/extractors/policy_extractor.py:145 | a negative index is a minus sign before its magnitude zero-filled to two digits |
| `PolicyExtractor.Format03NegativeMagnitude` | src/structure_it/extractors/policy_extractor.py:145 | after its minus sign, a negative index is rendered as digits worth its magnitude |
| `PolicyExtractor.Format03NegativeInjective` | src/structure_it/extractors/policy_extractor.py:145 | two negative indices with the same rendering are equal |
| `PolicyExtractor.Format03NaturalInjective` | src/structure_it/extractors/policy_extractor.py:145 | two non-negative indices with the same rendering are equal |
| `PolicyExtractor.Format03Injective` | src/structure_it/extractors/policy_extractor.py:145 | different indices are formatted differently |
| `PolicyExtractor.RequirementIdInjective` | src/structure_it/extractors/policy_extractor.py:134-145 | equal requirement ids within one policy come from equal positions |
| `PolicyExtractor.RequirementIdDistinct` | src/structure_it/extractors/policy_extractor.py:134-145 | distinct positions give distinct ids ("unique requirement ID") |
| `PolicyExtractor.RequirementIdExamples` | tests/test_policy_extractor.py:240-250 | the ids the tests expect: `FIN-001-REQ-001`, `IT-042-REQ-005`, `HR-100-REQ-099`, `LEG-001-REQ-100` |
| `PolicyExtractor.BasePromptOpening` | src/structure_it/extractors/policy_extractor.py:71 | the base prompt opens with the line naming the policy type |
| `PolicyExtractor.DomainGuidance` | src/structure_it/extractors/policy_extractor.py:93-131 | guidance is non-empty exactly for the five known types, and then opens with the same heading |
| `PolicyExtractor.BuildExtractionPrompt` | src/structure_it/extractors/policy_extractor.py:62-132 | every prompt starts with the base prompt, and is the base prompt alone exactly when the type is unknown |
| `PolicyExtractor.BuildExtractionPromptShape` | src/structure_it/extractors/policy_extractor.py:62-132 | every prompt opens with a line naming the policy type and so contains it; a known type's guidance comes right after the base prompt |
| `PolicyExtractor.MissingFields` | src/structure_it/extractors/policy_extractor.py:173-174 | the missing names are exactly the required ones absent from the metadata, empty exactly when all three are present |
| `PolicyExtractor.AssignIds` | src/structure_it/extractors/policy_extractor.py:197-201 | post-processing keeps the number of requirements |
| `PolicyExtractor.AssignIdsMeaning` | src/structure_it/extractors/policy_extractor.py:197-201 | every requirement names the policy and has a non-empty id: its own if it had one, else the id of its 1-based position; nothing else changes |
| `PolicyExtractor.AssignIdsGeneratedDistinct` | src/structure_it/extractors/policy_extractor.py:197-199 | generated ids never collide with each other |
| `PolicyExtractor.AssignIdsIdempotent` | src/structure_it/extractors/policy_extractor.py:197-201 | post-processing twice changes nothing more |
| `PolicyExtractor.AssignIdsKeepsCounts` | src/structure_it/extractors/policy_extractor.py:197-204 | post-processing keeps every type count |
| `PolicyExtractor.GeminiModel` | src/structure_it/extractors/gemini.py:37 | the model called is `model_name` when truthy, else the default model |
| `PolicyExtractor.RecordedModelAsWrittenMismatch` | src/structure_it/extractors/policy_extractor.py:208 | as written, an extractor built with no model name records `None` although the default model was called |
| `PolicyExtractor.RecordedModel` | src/structure_it/extractors/policy_extractor.py:208 | the evidently intended `model_used`: the model that was called; it agrees with the constructor's name whenever that name is non-empty. `extract` itself records the constructor's name |
| `PolicyExtractor.PostProcess` | src/structure_it/extractors/policy_extractor.py:196-210 | one requirement per returned one; the totals are the counts of the returned requirements' types and sum to at most their number; the timestamp and model are recorded |
| `PolicyExtractor.PostProcessMeaning` | src/structure_it/extractors/policy_extractor.py:196-210 | each post-processed requirement names the policy, has a non-empty id and keeps its type; every other field but the totals, timestamp and model is the model's |
| `PolicyExtractor.PostProcessIdempotent` | src/structure_it/extractors/policy_extractor.py:196-210 | post-processing a post-processed record changes nothing |
| `PolicyExtractor.ExtractSpec` | src/structure_it/extractors/policy_extractor.py:147-210 | missing required names fail first, then a missing file; `extract` succeeds exactly when neither happens and the model call succeeds, and an extraction failure carries the model call's message |
| `PolicyExtractor.ExtractSpecMeaning` | src/structure_it/extractors/policy_extractor.py:147-210 | a successful `extract` keeps the model's header fields and one requirement per returned one, each naming the metadata's policy id, and records the constructor's model name (`None` when none was given) |
| `PolicyExtractor.AssignRequirementIds` | src/structure_it/extractors/policy_extractor.py:196-201 | the in-place loop leaves the object's list equal to `AssignIds` of the old list and nothing else changed |
| `PolicyExtractor.PolicyRequirementsExtractor.Default` | src/structure_it/extractors/policy_extractor.py:21-34 | the default model name is `gemini-2.5-flash-lite` |
| `PolicyExtractor.PolicyRequirementsExtractor.constructor` | src/structure_it/extractors/policy_extractor.py:21-34 | the extractor keeps the given model name, possibly `None` |
| `PolicyExtractor.PolicyRequirementsExtractor.Extract` | src/structure_it/extractors/policy_extractor.py:147-210 | a failure is `ExtractSpec`'s error; a success is a fresh object holding `ExtractSpec`'s record with consistent totals and the constructor's model name |
| `SourceHighlight.Snippet` | server/main.py:29 | `statement[:50]` is a prefix of the statement of at most 50 characters, the whole statement when it is that short |
| `SourceHighlight.LocateSourceIndices` | server/main.py:22-35 | the first occurrence of the statement if any, spanning its length; else the first occurrence of the snippet with the end estimated from the full statement's length; else `(-1, -1)` |
| `SourceHighlight.ContainsPrefix` | server/main.py:28-31 | an occurrence of a string is an occurrence of each of its prefixes, so the snippet fallback finds every exact match |
| `SourceHighlight.LocateFoundIff` | server/main.py:22-35 | a statement is located exactly when its snippet occurs; start and end are `-1` together; a located span starts at a real position and extends by the statement's length, within the text for an exact match |
| `SourceHighlight.LocateShortStatement` | server/main.py:28-33 | for a statement of at most 50 characters, located exactly when it is a substring |
| `SourceHighlight.LocateEmptyStatement` | server/main.py:24-26 | the empty statement is found at 0 as an empty span |
| `SourceHighlight.LocateEndMayOverrun` | server/main.py:32-33 | the estimated end can lie beyond the end of the text |
| `SourceHighlight.HighlightOf` | server/main.py:57-62 | a highlight carries its requirement's id; an exact match starts at an occurrence of the statement and spans its length; a located highlight starts within the text and ends a statement's length later; an unlocated one is `(-1, -1)` |
| `SourceHighlight.Highlights` | server/main.py:55-63 | at most one highlight per requirement |
| `SourceHighlight.HighlightsIncludeLocated` | server/main.py:56-63 | every located requirement contributes its highlight |
| `SourceHighlight.HighlightOrigin` | server/main.py:56-63 | every highlight comes from a located requirement at a position no earlier than its own |
| `SourceHighlight.HighlightsMembers` | server/main.py:55-63 | the highlights are exactly the located requirements, each with its id and span |
| `SourceHighlight.HighlightsStartFound` | server/main.py:58 | no highlight starts at `-1` |
| `SourceHighlight.HighlightsAllLocated` | server/main.py:55-63 | when every requirement is located there is one highlight per requirement, position by position |
| `SourceHighlight.BuildHighlights` | server/main.py:55-63 | the endpoint's loop computes `Highlights` |
| `CivicSpider.BaseUrl` | src/structure_it/scrapers/civic_plus/spider.py:24-31 | the start page is `place_url` when truthy, else the example AgendaCenter; never empty |
| `CivicSpider.CommitteeName` | src/structure_it/scrapers/civic_plus/spider.py:45-50 | the stripped first header text; when that is missing or empty, the stripped join of the inner header texts; when that is empty too, "Unknown Committee" |
| `CivicSpider.CommitteeNameWhitespaceHeader` | src/structure_it/scrapers/civic_plus/spider.py:45-50 | a header of whitespace only is truthy and so gives an empty name, not the fallback |
| `CivicSpider.CommitteeNameStripped` | src/structure_it/scrapers/civic_plus/spider.py:50 | a committee name never starts or ends with whitespace |
| `CivicSpider.MeetingTitle` | src/structure_it/scrapers/civic_plus/spider.py:56-57 | the stripped first paragraph text, or "" |
| `CivicSpider.AnchorName` | src/structure_it/scrapers/civic_plus/spider.py:61 | the name of some anchor of the row, and none only when no anchor has a name |
| `CivicSpider.FirstDateFrom` | src/structure_it/scrapers/civic_plus/spider.py:67 | `re.search` returns -1 or a position where `_` and eight digits start |
| `CivicSpider.FirstDateFromLeftmost` | src/structure_it/scrapers/civic_plus/spider.py:67 | the search finds the leftmost match, and reports -1 only when there is none |
| `CivicSpider.DaysInMonth` | src/structure_it/scrapers/civic_plus/spider.py:71 | a month has 28 to 31 days |
| `CivicSpider.ValidDate` | src/structure_it/scrapers/civic_plus/spider.py:71 | `datetime(y, m, d)` accepts only years 1 to 9999, months 1 to 12 and days 1 to 31, always accepts days up to 28, accepts February 29 exactly in leap years and never a later February day |
| `CivicSpider.AnchorDateFields` | src/structure_it/scrapers/civic_plus/spider.py:63-73 | no anchor name gives no date; a date found is a real calendar date (an invalid one hits the `ValueError` path) |
| `CivicSpider.AnchorDate` | src/structure_it/scrapers/civic_plus/spider.py:63-73 | the meeting date, when there is one, is the anchor's date as `YYYY-MM-DD` |
| `CivicSpider.FormatDate` | src/structure_it/scrapers/civic_plus/spider.py:71 | `strftime("%Y-%m-%d")` writes the year's digits, a hyphen, two digits of the month, a hyphen and two digits of the day, which read back as the year, month and day |
| `CivicSpider.AnchorDateNoMatch` | src/structure_it/scrapers/civic_plus/spider.py:67-68 | a name without `_` followed by eight digits gives no date |
| `CivicSpider.ZeroFilledValue` | src/structure_it/scrapers/civic_plus/spider.py:71 | a zero-filled rendering is all digits and denotes the number |
| `CivicSpider.NatToStringWidth` | src/structure_it/scrapers/civic_plus/spider.py:71 | a number below 10^w has at most w digits |
| `CivicSpider.DateFieldsAt` | src/structure_it/scrapers/civic_plus/spider.py:67-69 | `_` followed by two, two and four digits matches at 0 with those groups |
| `CivicSpider.ZeroFilledField` | src/structure_it/scrapers/civic_plus/spider.py:71 | a number below 10^w zero-filled to width w has exactly w digits and denotes it |
| `CivicSpider.AnchorDateRoundTrip` | src/structure_it/scrapers/civic_plus/spider.py:60-71 | round trip: the anchor `_MMDDYYYY` of a valid date reads back as that date and formats as `YYYY-MM-DD` |
| `CivicSpider.AnchorDateFieldsOf` | src/structure_it/scrapers/civic_plus/spider.py:67-71 | a name starting with `_MMDDYYYY` of a valid date gives that date |
| `CivicSpider.AnchorDateFirstMatchOnly` | src/structure_it/scrapers/civic_plus/spider.py:67-73 | only the first match counts: a later valid date does not rescue an invalid first one |
| `CivicSpider.ClassifyAsset` | src/structure_it/scrapers/civic_plus/spider.py:90-125 | the href's keyword type wins; only when it is Other does the link text decide |
| `CivicSpider.HrefAssetType` | src/structure_it/scrapers/civic_plus/spider.py:104-115 | the href's first-match test says nothing exactly when none of its words occurs, and an href containing "agenda" is an agenda packet or an agenda |
| `CivicSpider.TextAssetType` | src/structure_it/scrapers/civic_plus/spider.py:117-124 | the text fallback never gives a media type and says nothing exactly when none of "Agenda", "Minutes" and "Packet" occurs |
| `CivicSpider.ContainsTransitive` | src/structure_it/scrapers/civic_plus/spider.py:104-115 | what occurs inside an occurring string occurs too |
| `CivicSpider.SlashedWordSubsumed` | src/structure_it/scrapers/civic_plus/spider.py:106-115 | a test for `/word/` or `word` is a test for `word` |
| `CivicSpider.HrefAssetTypeByWords` | src/structure_it/scrapers/civic_plus/spider.py:104-115 | the slashed tests never decide anything |
| `CivicSpider.SelectedLinkIsAgenda` | src/structure_it/scrapers/civic_plus/spider.py:77-125 | every selected link, whose href starts with `/AgendaCenter/ViewFile`, is an agenda packet or an agenda: the later tests and the text fallback are never reached |
| `CivicSpider.ViewFileHasAgenda` | src/structure_it/scrapers/civic_plus/spider.py:77 | a selected href, lowercased, has "agenda" right after its first slash |
| `CivicSpider.LowerAgenda` | src/structure_it/scrapers/civic_plus/spider.py:91 | "Agenda" at index 1 becomes "agenda" once lowercased |
| `CivicSpider.HrefAgenda` | src/structure_it/scrapers/civic_plus/spider.py:104-107 | an href containing "agenda" is an agenda packet or an agenda |
| `CivicSpider.MinutesLinkAsWritten` | src/structure_it/scrapers/civic_plus/spider.py:85-125 | a selected minutes document (its part after `/AgendaCenter/ViewFile` names minutes and no agenda or packet) is classified as something other than minutes as written, and as minutes by `IntendedAssetType` |
| `CivicSpider.IntendedAssetType` | src/structure_it/scrapers/civic_plus/spider.py:85-92 | the classification the view-file comment describes: off a selected link it is the written classification |
| `CivicSpider.IntendedAssetTypeReachesAll` | src/structure_it/scrapers/civic_plus/spider.py:104-124 | on a selected link whose tail has no agenda or packet word, the intended classification gives minutes, audio, video and captions for their words, and the text fallback when the tail names nothing |
| `CivicSpider.DefaultBaseHierarchical` | src/structure_it/scrapers/civic_plus/spider.py:29 | the default listing `https://example.com/AgendaCenter` is an https URL on a plain host, the form the URL lemmas take |
| `CivicSpider.LinkItems` | src/structure_it/scrapers/civic_plus/spider.py:79-137 | at most one item per link |
| `CivicSpider.LinkItem` | src/structure_it/scrapers/civic_plus/spider.py:127-137 | the item of a selected link is a `civic_meeting` of the given committee, date, title and time, an agenda or agenda packet, at the link's href joined to the listing URL |
| `CivicSpider.LinkItemUrl` | src/structure_it/scrapers/civic_plus/spider.py:127 | on a listing `scheme://host…`, a document link with a root path and no dot segments gets the URL of that path and its query on the listing's host |
| `CivicSpider.LinkItemsAll` | src/structure_it/scrapers/civic_plus/spider.py:79-137 | every item of a row's links is a `civic_meeting` of the row's committee, date and title, an agenda or agenda packet |
| `CivicSpider.LinkItemsOrigin` | src/structure_it/scrapers/civic_plus/spider.py:79-137 | every item comes from a link that yields one, at a position no earlier than its own |
| `CivicSpider.LinkItemsSkipped` | src/structure_it/scrapers/civic_plus/spider.py:77-84 | links with "PreviousVersions" or outside the ViewFile selection yield nothing |
| `CivicSpider.RowItems` | src/structure_it/scrapers/civic_plus/spider.py:54-137 | at most one item per anchor, none when no anchor is a selected link, each a `civic_meeting` of the committee with the date of the row's anchor name and the row's stripped title, an agenda or agenda packet |
| `CivicSpider.RowsItems` | src/structure_it/scrapers/civic_plus/spider.py:53-137 | every item of a committee's rows is a `civic_meeting` of that committee, an agenda or agenda packet |
| `CivicSpider.PageItems` | src/structure_it/scrapers/civic_plus/spider.py:33-137 | a page with no committee div yields nothing; every item is a `civic_meeting` agenda or agenda packet |
| `CivicSpider.RowItemShape` | src/structure_it/scrapers/civic_plus/spider.py:129-137 | every item is a `civic_meeting` of the row's committee, date and title, an agenda or agenda packet, with the joined URL of a selected link |
| `CivicSpider.ParseRow` | src/structure_it/scrapers/civic_plus/spider.py:54-137 | one row: its title and date, then the link loop, as `RowItems` |
| `CivicSpider.ParseRows` | src/structure_it/scrapers/civic_plus/spider.py:53-137 | the row loop of a committee, as `RowsItems` |
| `CivicSpider.Parse` | src/structure_it/scrapers/civic_plus/spider.py:33-137 | `parse`: the items of every committee division, in page order, as `PageItems` |
| `UrlParsing.LStripC0` | src/structure_it/scrapers/civic_plus/spider.py:127 | `urlsplit` strips leading C0 controls and spaces: what is left starts with neither, and only such characters were removed |
| `UrlParsing.RStripC0` | src/structure_it/scrapers/civic_plus/spider.py:127 | trailing C0 controls and spaces are stripped the same way |
| `UrlParsing.RemoveUnsafe` | src/structure_it/scrapers/civic_plus/spider.py:127 | tabs, carriage returns and line feeds are removed, and nothing else |
| `UrlParsing.RemoveUnsafeClean` | src/structure_it/scrapers/civic_plus/spider.py:127 | a text with none of them is left as it is |
| `UrlParsing.SchemeEnd` | src/structure_it/scrapers/civic_plus/spider.py:127 | a scheme ends at a ':' after a letter and scheme characters, or there is none |
| `UrlParsing.AuthorityEnd` | src/structure_it/scrapers/civic_plus/spider.py:127 | the authority runs up to the first '/', '?' or '#', or to the end |
| `UrlParsing.SplitUrl` | src/structure_it/scrapers/civic_plus/spider.py:127 | `urlsplit` leaves no params, a path without '?' or '#', a query without '#', and an authority without '/', '?' or '#' |
| `UrlParsing.ParseUrl` | src/structure_it/scrapers/civic_plus/spider.py:127 | `urlparse` agrees with `urlsplit` on the scheme, authority, query and fragment, and on the path when it has no ';' |
| `UrlParsing.SplitBase` | src/structure_it/scrapers/civic_plus/spider.py:127 | a hierarchical base `scheme://host…` splits into that scheme and host |
| `UrlParsing.ParsePath` | src/structure_it/scrapers/civic_plus/spider.py:127 | a root path with a query parses into that path and query under the base's scheme |
| `UrlParsing.Resolve` | src/structure_it/scrapers/civic_plus/spider.py:127 | the dot-segment loop never lengthens the segments and leaves no dot segment |
| `UrlParsing.ResolveNoDots` | src/structure_it/scrapers/civic_plus/spider.py:127 | without dot segments the loop keeps every segment |
| `UrlParsing.RemoveDotSegments` | src/structure_it/scrapers/civic_plus/spider.py:127 | the resolved path is never empty |
| `UrlParsing.RemoveDotSegmentsNone` | src/structure_it/scrapers/civic_plus/spider.py:127 | a path without dot segments resolves to itself |
| `UrlParsing.ResolveExample` | src/structure_it/scrapers/civic_plus/spider.py:127 | `..` drops the segment before it, and at the end leaves a trailing '/' |
| `UrlParsing.JoinFromRoot` | src/structure_it/scrapers/civic_plus/spider.py:127 | a url that parses into a root path against a base with a relative, networked scheme takes the base's scheme and authority and its own resolved path and query |
| `UrlParsing.UrlJoinRootPath` | src/structure_it/scrapers/civic_plus/spider.py:127 | against a hierarchical base, a root path keeps the base's scheme and authority, has its dot segments resolved, and keeps its query |
| `UrlParsing.UrlJoinPlainPath` | src/structure_it/scrapers/civic_plus/spider.py:127 | a root path without dot segments is taken over as it is, with its query |
| `UrlParsing.UrlJoinNonRelative` | src/structure_it/scrapers/civic_plus/spider.py:127 | against a base whose scheme is not a relative one, a root path is returned as it is |
| `MetadataScan.MarkdownFiles` | scripts/generate_metadata_only.py:40 | the glob keeps at most the directory's entries |
| `MetadataScan.MarkdownFilesMembers` | scripts/generate_metadata_only.py:40 | `glob("*.md")` keeps exactly the entries with a markdown name |
| `MetadataScan.Insert` | scripts/generate_metadata_only.py:45 | insertion adds exactly one entry |
| `MetadataScan.SortByName` | scripts/generate_metadata_only.py:45 | sorting keeps the number of entries |
| `MetadataScan.ConsSorted` | scripts/generate_metadata_only.py:45 | a sorted list stays sorted with an entry in front that no entry precedes |
| `MetadataScan.SortedTail` | scripts/generate_metadata_only.py:45 | the tail of a sorted list is sorted and bounded below by its head |
| `MetadataScan.BoundPermutation` | scripts/generate_metadata_only.py:45 | a lower bound of every entry bounds any rearrangement of them |
| `MetadataScan.InsertMeaning` | scripts/generate_metadata_only.py:45 | insertion into a sorted list keeps it sorted and adds exactly that entry |
| `MetadataScan.SortByNameMeaning` | scripts/generate_metadata_only.py:45 | `sorted(policy_files)` is in ascending name order and a permutation of the files |
| `MetadataScan.SortedDistinctStrict` | scripts/generate_metadata_only.py:45 | within one directory, where names differ, the order is strict |
| `MetadataScan.Run` | scripts/generate_metadata_only.py:48 | a greedy run stays inside the string |
| `MetadataScan.RunMeaning` | scripts/generate_metadata_only.py:48 | the run takes every character of the class and stops at the first one outside it |
| `MetadataScan.RunExact` | scripts/generate_metadata_only.py:48 | a stretch of the class ending at the end or before an outsider is the run |
| `MetadataScan.MatchPolicyId` | scripts/generate_metadata_only.py:48-53 | a matched group is a policy id (capitals, a hyphen, digits) and the name starts with it and an underscore |
| `MetadataScan.MatchPolicyIdComplete` | scripts/generate_metadata_only.py:48-53 | every name starting with a policy id and an underscore matches, with that id as the group |
| `MetadataScan.MatchPolicyIdMeaning` | scripts/generate_metadata_only.py:48-53 | `^([A-Z]+-\d+)_` matches with group `id` exactly when `id` is a policy id and the name starts with `id_` |
| `MetadataScan.PrefixOfPolicyId` | scripts/generate_metadata_only.py:61 | the prefix of a policy id is its part before the hyphen |
| `MetadataScan.StemOfMarkdown` | scripts/generate_metadata_only.py:56 | a markdown file's stem is its name without `.md` |
| `MetadataScan.Capitalize` | scripts/generate_metadata_only.py:58 | `str.capitalize`: first character upper case, the rest lower case, same length |
| `MetadataScan.CapitalizeAll` | scripts/generate_metadata_only.py:58 | one capitalized word per word |
| `MetadataScan.TitleCons` | scripts/generate_metadata_only.py:58 | the title of a part with an underscore is its first word capitalized, a space, the title of the rest |
| `MetadataScan.CapitalizeAllCons` | scripts/generate_metadata_only.py:58 | capitalizing a list word by word |
| `MetadataScan.JoinCons` | scripts/generate_metadata_only.py:58 | joining a list with a separator, element by element |
| `MetadataScan.TitleMeaning` | scripts/generate_metadata_only.py:57-58 | the title has the length of the title part and is it character by character: underscores become spaces, word starts upper case, the rest lower case |
| `MetadataScan.PolicyType` | scripts/generate_metadata_only.py:61-69 | the type is other than "Unknown" exactly for the five known prefixes |
| `MetadataScan.PolicyTypeKnown` | scripts/generate_metadata_only.py:61-69 | distinct known prefixes have distinct types |
| `MetadataScan.Head` | scripts/generate_metadata_only.py:74 | `f.read(1000)` is a prefix of at most 1000 characters, the whole content when it is that short |
| `MetadataScan.FieldAt` | scripts/generate_metadata_only.py:77-82 | a captured group is a non-empty run of its character class |
| `MetadataScan.SearchFrom` | scripts/generate_metadata_only.py:77-82 | a group found from a position on is a non-empty run of its character class |
| `MetadataScan.Search` | scripts/generate_metadata_only.py:77-82 | a group `re.search` finds is a non-empty run of its character class |
| `MetadataScan.SearchFromMeaning` | scripts/generate_metadata_only.py:77-82 | the search from a position finds the group of the leftmost match after it, and nothing exactly when nothing matches there |
| `MetadataScan.SearchMeaning` | scripts/generate_metadata_only.py:77-82 | `re.search` (case-insensitive) finds the group of the leftmost match, and nothing exactly when the pattern matches nowhere |
| `MetadataScan.VersionOf` | scripts/generate_metadata_only.py:76-86 | the version is always a non-empty run of digits and dots, found or defaulted; an unreadable file gets "1.0" |
| `MetadataScan.EffectiveDateOf` | scripts/generate_metadata_only.py:80-86 | the effective date is always a non-empty run of digits and hyphens, found or defaulted; an unreadable file gets "2024-01-15" |
| `MetadataScan.FieldsReadHeadOnly` | scripts/generate_metadata_only.py:74-82 | text after the first 1000 characters never changes the version or the date |
| `MetadataScan.Complexity` | scripts/generate_metadata_only.py:88-95 | "simple" exactly below 3000 bytes, "complex" exactly from 10000, "medium" exactly in between |
| `MetadataScan.ComplexityMonotone` | scripts/generate_metadata_only.py:88-95 | a larger file is never estimated simpler |
| `MetadataScan.PolicyIdNoUnderscore` | scripts/generate_metadata_only.py:48 | a policy id holds no underscore |
| `MetadataScan.EntryOf` | scripts/generate_metadata_only.py:47-108 | a file has an entry exactly when its name matches; the entry's id is a policy id that begins the name, and it names its file, its complexity and its size and scan time |
| `MetadataScan.ParseName` | scripts/generate_metadata_only.py:47-57 | the name `<id>_<words>.md` matches with its id, and its title part is the words |
| `MetadataScan.EntryOfName` | scripts/generate_metadata_only.py:44-108 | the entry of `<id>_<words>.md`: the id, the title of the words, the type of the id's prefix, the fields found in the text, the file name, the complexity of its size, its size and scan time |
| `MetadataScan.EntryOfUnmatched` | scripts/generate_metadata_only.py:48-51 | a file whose name does not match is skipped |
| `MetadataScan.EntryOptions` | scripts/generate_metadata_only.py:45-108 | one outcome per file |
| `MetadataScan.EntryOptionsAt` | scripts/generate_metadata_only.py:45-108 | the outcome at each position is that file's entry or skip |
| `MetadataScan.EntryOptionsNames` | scripts/generate_metadata_only.py:103 | each entry carries its own file's name |
| `MetadataScan.Somes` | scripts/generate_metadata_only.py:108 | dropping the skipped files keeps at most all of them |
| `MetadataScan.SomesMembers` | scripts/generate_metadata_only.py:108 | the kept entries are exactly the present ones |
| `MetadataScan.SomesSorted` | scripts/generate_metadata_only.py:45-108 | entries present in filename order stay in that order once skips are dropped |
| `MetadataScan.EntryFilename` | scripts/generate_metadata_only.py:103 | an entry's filename is its file's name |
| `MetadataScan.EntriesMembers` | scripts/generate_metadata_only.py:45-108 | the entries are exactly those of the files that match |
| `MetadataScan.EntriesSorted` | scripts/generate_metadata_only.py:45-108 | entries of files in name order are in filename order |
| `MetadataScan.SortedFilesMembers` | scripts/generate_metadata_only.py:40-45 | the files the loop walks are exactly the directory's markdown files |
| `MetadataScan.ScanMembers` | scripts/generate_metadata_only.py:28-110 | the scan has one entry for each existing markdown file whose name matches, and no other |
| `MetadataScan.ScanSorted` | scripts/generate_metadata_only.py:45 | the entries come in ascending filename order |
| `MetadataScan.ScanNothing` | scripts/generate_metadata_only.py:37-42 | a missing directory, or one without markdown files, scans to the empty list |
| `MetadataScan.ScanExistingPolicies` | scripts/generate_metadata_only.py:28-110 | the scanning loop computes `ScanSpec` |
| `MetadataDatasets.Stamped` | scripts/generate_metadata_only.py:165-167 | one stamped dict per default |
| `MetadataDatasets.Infos` | scripts/generate_metadata_only.py:97-104 | one set of shared fields per dict |
| `MetadataDatasets.StampedMeaning` | scripts/generate_metadata_only.py:165-167 | stamping adds `generated_at` and nothing else: the shared fields are the defaults in order, every stamp the generation time |
| `MetadataDatasets.AddGeneratedAt` | scripts/generate_metadata_only.py:165-167 | the stamping loop computes `Stamped` |
| `MetadataDatasets.DefaultInfo` | scripts/generate_metadata_only.py:136-162 | a default entry has the given id and version, the shared effective date `2024-01-15`, and a markdown file name that begins with its id and an underscore |
| `MetadataDatasets.MicroDefaults` | scripts/generate_metadata_only.py:135-163 | the micro dataset has three default policies at version 1.0 with distinct ids, each shaped as `DefaultInfo` says |
| `MetadataDatasets.DatasetPolicies` | scripts/generate_metadata_only.py:119-167 | a dataset with defaults is never empty, so `policies[0]` exists for the CSV header |
| `MetadataDatasets.DatasetSource` | scripts/generate_metadata_only.py:123-134 | the scanned entries are used exactly when scanning is asked for and some markdown file matches; otherwise the result is the defaults, none marked as scanned |
| `MetadataDatasets.ScanEntriesScanned` | scripts/generate_metadata_only.py:97-107 | every scanned entry carries `file_size` and `scanned_at` |
| `MetadataDatasets.Keys` | scripts/generate_metadata_only.py:97-107 | a dict has nine keys when scanned and eight when it is a default |
| `MetadataDatasets.CsvRowsMatchHeader` | scripts/generate_metadata_only.py:174-180 | every row given to the CSV writer has exactly the keys of the first row, which the writer takes as its columns |
| `MetadataDatasets.TallyMeaning` | scripts/generate_metadata_only.py:355-361 | a tally's keys are the values that occur, each mapped to how often it occurs |
| `MetadataDatasets.MapSumRemove` | scripts/generate_metadata_only.py:355-361 | the sum of a tally does not depend on which key is taken out first |
| `MetadataDatasets.TallySum` | scripts/generate_metadata_only.py:355-361 | the counts of a tally sum to the number of values counted |
| `MetadataDatasets.TypesOf` | scripts/generate_metadata_only.py:358 | one policy type per policy |
| `MetadataDatasets.ComplexitiesOf` | scripts/generate_metadata_only.py:359 | one complexity per policy |
| `MetadataDatasets.TallySnoc` | scripts/generate_metadata_only.py:360-361 | `d[k] = d.get(k, 0) + 1` adds one to that key's count and keeps the others |
| `MetadataDatasets.FieldsOfSnoc` | scripts/generate_metadata_only.py:357-359 | one more policy appends its own type and complexity |
| `MetadataDatasets.SummariesSum` | scripts/generate_metadata_only.py:354-361 | both summaries count every policy exactly once |
| `MetadataDatasets.Summarize` | scripts/generate_metadata_only.py:354-361 | the summary loop computes the tallies of the types and of the complexities |
| `MetadataDatasets.ChoosePolicies` | scripts/generate_metadata_only.py:123-167 | the choice both generators make, as `DatasetPolicies` |
| `MetadataDatasets.GenerateMicroMetadata` | scripts/generate_metadata_only.py:113-187 | the micro dataset's policies: the scan, or the three defaults stamped |
| `MetadataDatasets.GenerateFullMetadata` | scripts/generate_metadata_only.py:190-376 | the full dataset's policies (the scan, or the thirteen defaults stamped) and their two tallies |
| `MetadataDatasets.DatasetsToGenerate` | scripts/generate_metadata_only.py:408-426 | a dataset is generated when its flag is given or no flag is, so at least one always is |
| `PurePath.Name` | examples/extract_policy_requirements.py:52 | `Path(p).name` holds no slash and is never `.` |
| `PurePath.NameOfPlain` | examples/extract_policy_requirements.py:52 | a plain file name is its own name |
| `PurePath.NameOfJoined` | examples/extract_policy_requirements.py:52 | the name of `dir/name` is `name`, whatever the directory |
| `PurePath.NameIgnoresTrailing` | examples/extract_policy_requirements.py:52 | a trailing `/` or `/.` does not change the name |
| `PurePath.Stem` | examples/extract_policy_requirements.py:57-59 | the stem is a prefix of the name that is either the name itself or the name cut at its last dot, and it is cut exactly when that last dot is neither the first nor the last character |
| `MetadataLookup.ExactFrom` | examples/extract_policy_requirements.py:53-55 | the exact pass can only fail on a non-dict entry, at an index in the list |
| `MetadataLookup.ExactFromMeaning` | examples/extract_policy_requirements.py:53-55 | the exact pass returns the first entry whose filename equals the PDF's name, or raises at the first non-dict entry, whichever comes first, and finds nothing past the end |
| `MetadataLookup.ExactFromNone` | examples/extract_policy_requirements.py:53-55 | a pass that finds nothing has passed every entry |
| `MetadataLookup.StemKeys` | examples/extract_policy_requirements.py:58-60 | one key per entry |
| `MetadataLookup.StemKeysAt` | examples/extract_policy_requirements.py:59 | each key is the stem of its own entry's `filename`, or the error that computing it raises |
| `MetadataLookup.StemFrom` | examples/extract_policy_requirements.py:58-61 | the stem pass can only fail on a non-dict entry or a filename that is present but not text, at an index in the list |
| `MetadataLookup.StemFromMeaning` | examples/extract_policy_requirements.py:58-61 | the stem pass returns the first entry whose filename's stem is the PDF's stem, or raises at the first entry that is not a dict or has a filename that is present but not text, and finds nothing past the end |
| `MetadataLookup.StemFromNone` | examples/extract_policy_requirements.py:58-61 | a pass that finds nothing has passed every entry |
| `MetadataLookup.Available` | examples/extract_policy_requirements.py:65 | one listed filename per entry |
| `MetadataLookup.AvailableAt` | examples/extract_policy_requirements.py:65 | each listed filename is the entry's own, `None` when it has none |
| `MetadataLookup.LoadMetadata` | examples/extract_policy_requirements.py:37-69 | JSON that is not a list is returned as it is |
| `MetadataLookup.LookupExactMatch` | examples/extract_policy_requirements.py:51-55 | the first entry whose filename is the PDF's name is returned |
| `MetadataLookup.LookupStemMatch` | examples/extract_policy_requirements.py:56-61 | failing an exact match, the first entry whose filename has the PDF's stem is returned |
| `MetadataLookup.LookupNoMatch` | examples/extract_policy_requirements.py:62-66 | "No metadata found" is raised exactly when every entry is a dict whose filename is text or missing (read as `""`) and none matches by name or stem, and it lists every entry's filename |
| `MetadataLookup.LookupReturnsEntry` | examples/extract_policy_requirements.py:50-61 | a list lookup returns one of the list's own entries, always a dict |
| `MetadataLookup.ExactFound` | examples/extract_policy_requirements.py:53-55 | what the exact pass finds is an entry at or after its start that matches exactly |
| `MetadataLookup.StemFound` | examples/extract_policy_requirements.py:58-61 | what the stem pass finds is an entry at or after its start whose stem matches |
| `MetadataLookup.LoadMetadataFromFile` | examples/extract_policy_requirements.py:37-69 | the function's loops compute `LoadMetadata` |
| `MetadataLookup.SearchList` | examples/extract_policy_requirements.py:51-66 | the two loops, each returning at its first match, then the error, compute the list lookup |
| `MetadataLookup.TypeOfChoice` | examples/extract_policy_requirements.py:97-106 | the type is always one of the five; "Financial" exactly for choice 1 or any answer off the menu |
| `MetadataLookup.TypeMenuOneToOne` | examples/extract_policy_requirements.py:99-105 | the five menu choices name five different types |
| `MetadataLookup.PromptForMetadata` | examples/extract_policy_requirements.py:72-123 | the three required fields are always present and stripped; version and date are present exactly when their stripped answers are non-empty; no other key |
| `MetadataLookup.PromptStable` | examples/extract_policy_requirements.py:88-121 | answering again with the dict's own stripped values gives the same dict |
| `MetadataLookup.SourceOf` | examples/extract_policy_requirements.py:178-194 | the file when `--metadata` is given, else the arguments when all three required ones are given, else the prompt |
| `MetadataLookup.ResolveMetadata` | examples/extract_policy_requirements.py:177-194 | only the file can raise; from the file it is the lookup's result; otherwise a dict with the three required fields, the arguments taken as given and the optional ones present exactly when given, or the prompt's dict |
| `Text.FindFrom` | server/main.py:24 | the search from a position finds the leftmost occurrence after it, -1 only when there is none |
| `Text.Find` | server/main.py:24 | `str.find` gives -1 exactly when there is no occurrence, else the leftmost one |
| `Text.Lower` | src/structure_it/scrapers/civic_plus/spider.py:91 | `str.lower` keeps the length and lowers each character |
| `Text.LowerPrefix` | src/structure_it/scrapers/civic_plus/spider.py:91 | lowercasing commutes with taking a prefix |
| `Text.TrimStartMeaning` | src/structure_it/scrapers/civic_plus/spider.py:50 | `lstrip` drops exactly the leading whitespace |
| `Text.TrimEndMeaning` | src/structure_it/scrapers/civic_plus/spider.py:50 | `rstrip` drops exactly the trailing whitespace |
| `Text.TrimStartAllSpace` | src/structure_it/scrapers/civic_plus/spider.py:50 | `lstrip` of a string of whitespace only is empty |
| `Text.StripMeaning` | src/structure_it/scrapers/civic_plus/spider.py:50 | `strip` leaves the slice between the leading and trailing whitespace, neither starting nor ending with whitespace |
| `Text.StripIdempotent` | examples/extract_policy_requirements.py:88-89 | stripping twice is stripping once |
| `Text.NatToString` | src/structure_it/extractors/policy_extractor.py:145 | `str(n)` is a non-empty digit string, with no leading zero but for 0 |
| `Text.NatToStringRoundTrip` | src/structure_it/extractors/policy_extractor.py:145 | reading the digits of `str(n)` gives back `n` |
| `Text.NatToStringInjective` | src/structure_it/extractors/policy_extractor.py:145 | different numbers have different renderings |
| `Text.IntToString` | src/structure_it/extractors/policy_extractor.py:145 | `str(i)` starts with `-` exactly for a negative number |
| `Text.ZeroFill` | src/structure_it/extractors/policy_extractor.py:145 | zero-filling pads to the width and keeps a digit string's value |
| `Text.LeadingZerosValue` | src/structure_it/extractors/policy_extractor.py:145 | leading zeros do not change a digit string's value |
| `Text.Split` | scripts/generate_metadata_only.py:57-58 | `split` on one character gives at least one part, none holding the separator |
| `Text.LastIndexOf` | examples/extract_policy_requirements.py:52 | `rfind` of one character gives -1 or a position holding it, with none after it |
| `Text.StrLeTotal` | scripts/generate_metadata_only.py:45 | the string order of `sorted` is total |
| `Text.StrLeTransitive` | scripts/generate_metadata_only.py:45 | the string order is transitive |
| `Text.StrLeAntisymmetric` | scripts/generate_metadata_only.py:45 | the string order is antisymmetric |
| `Text.Least` | src/structure_it/storage/star_schema_storage.py:260 | the least of a non-empty set of strings is a member no greater than any other |
| `Text.Sorted` | src/structure_it/storage/star_schema_storage.py:260 | the keys of a dict in ascending order: each key exactly once, strictly increasing |
| `Text.JoinSplit` | scripts/generate_metadata_only.py:57-58 | joining the pieces of a split with its separator gives the text back |
| `JsonValue.Get` | src/structure_it/etl/load.py:48-51 | `d.get(k, default)` is the value when the key is present, else the default |
| `JsonValue.PyStr` | src/structure_it/storage/star_schema_storage.py:260 | `str(v)` of a string is the string, of an integer its decimal rendering, of a list something in brackets, of a dict something in braces |
| `JsonValue.Truthy` | src/structure_it/storage/star_schema_storage.py:247 | a value is truthy exactly when it differs from the empty value of its type; a string exactly when it is non-empty |
| `JsonValue.Quote` | src/structure_it/storage/star_schema_storage.py:260 | `repr` quotes with a double quote exactly when the string has a single quote and no double quote, else with a single quote |
| `JsonValue.UnescapeEscape` | src/structure_it/storage/star_schema_storage.py:260 | reading back what `repr` escaped gives the original characters |
| `JsonValue.StrRepr` | src/structure_it/storage/star_schema_storage.py:260 | `repr(s)` is enclosed in its chosen quotes and reads back to `s` |
| `JsonValue.StrReprInjective` | src/structure_it/storage/star_schema_storage.py:260 | distinct strings have distinct representations |
| `JsonValue.Repr` | src/structure_it/storage/star_schema_storage.py:260 | inside a container a string is written as `repr`, any other value as its `str` |
| `JsonValue.PyStrOneEntry` | src/structure_it/storage/star_schema_storage.py:260 | a one-entry dict prints as `{key-repr: value-repr}` |
| `JsonValue.PyStrDictExample` | src/structure_it/storage/star_schema_storage.py:260 | `str({"n": 1})` is `{'n': 1}` |
| `JsonValue.ReprBothQuotesExample` | src/structure_it/storage/star_schema_storage.py:260 | `repr` of a string with both quotes keeps the single quote and escapes it inside |

## Left out

- The DuckDB engine and SQL text are not modelled. The three tables are maps and a sequence, and the statements are functions on them. `star_schema.sql` is not part of this model, so the column defaults are assumptions. `created_at` and `first_seen_at` are taken to be the insert time, and the audit table's own id and timestamp columns are not modelled.
- Transactions and crash atomicity are not modelled. The source runs separate statements with no transaction, and a sequential model cannot observe a partial state. A shredding error after the document statements is modelled: the document and audit writes stay, with no facts.
- Embeddings: only the 768-zero placeholder of each fact is modelled, as a sequence of reals. `retrieve_context` takes a query vector but never uses it, and there is no similarity search to model.
- The order of fact rows within the fact table is not modelled. It is a map keyed by item id, which is what `INSERT OR REPLACE` on that key observes.
- `StarSchemaStorage.StarSchemaStore.QueryEntities`: documents with equal `created_at` come in some order that the model does not fix. SQL leaves the order of ties unspecified too.
- Clocks are parameters. `now` is given to the store, the load step, the extractor, the spider and the metadata generator. The generator takes one `now` for every entry, while Python reads `utcnow()` again for each file and each default. The spider likewise takes one `now` for every item, while Python reads the clock again for each yielded item.
- `close`, connection management and the JSON and DuckDB storage back ends are not modelled. They are connection plumbing and filesystem wrappers.
- Floating-point numbers in JSON values are not modelled. `Value` has strings, integers, booleans, null, lists and dicts. Dict key order is not modelled either.
- The language-model call and the PDF-to-markdown conversion are parameters of `PolicyExtractor.PolicyRequirementsExtractor.Extract`. Gemini, MarkItDown and the network are not part of this model. The Gemini extractor is kept only for the model name it picks.
- `extract_batch` is not modelled, because it is concurrency (`asyncio.gather`) around `extract`.
- Pydantic validation is not modelled. The schema classes are record shapes.
- The server's extraction endpoint has its raw document text as a parameter. Its upload handling, temporary file and the call to `_convert_to_markdown` are not modelled: `server/main.py:51` calls `_convert_to_markdown`, which the extractor does not define.
- The spider works on a page given already parsed, as the values its CSS selectors read. Scrapy, HTML parsing, the request and logging are not modelled. The other spiders, the staging pipeline, rate limiting, retries and patching are not part of this model.
- The load step takes the staged records as already parsed JSON (`None` when a file cannot be read or parsed). `load_all` takes the candidate files as a parameter. The directory glob, the entity-id filter, printing and argument parsing are not modelled.
- The metadata generator takes the dataset directory as a list of files, each with its name, size and text. File reads, JSON and CSV writing, directory creation and printing are not modelled. The `read(1000)` head is taken in characters.
- Upper case, `lower()`, `capitalize()` and `\d` are modelled on ASCII letters and digits only. Python applies them to all of Unicode.
- `PurePath.stem` follows the Python 3.12 rule for names that are only a suffix.
- The example script takes the parsed metadata JSON, the interactive answers and the command line as values. File reading, `input()` at end of file, the API-key and PDF-existence checks, and printing are not modelled. The metadata dicts it builds are maps, so their key order is not modelled. `main` prints `policy_title` before extracting, so a metadata-file entry without that key raises `KeyError` there; `MetadataLookup.ResolveMetadata` stops before that print.
- JsonValue.PyStr: a dict is written with its keys in ascending order, not in insertion order, because the model's dicts are maps. Non-printable characters outside Latin-1 are written as themselves, where Python's `repr` escapes them. The same holds for `Shredding.ItemContent` and `Shredding.DictElementFact`, which use it for a dict description and a dict id seed.
- ItemContent: a dict description is appended as `PyStr` writes it, so with its keys in ascending order (see `JsonValue.PyStr`).
- DictElementFact: a dict id seed is written by `PyStr`, so two seeds that differ only in key order get the same id here, which Python would tell apart.
- StarSchemaStorage.JsonExtractString: the JSON text of a dict lists its keys in ascending order, not in insertion order. Path components with `[`, `*` or quotes, empty components, and a `'` that breaks the SQL string are not modelled; DuckDB may index, wildcard or fail on them. `StarSchemaStorage.MatchedFactHasFilters` and `StarSchemaStorage.StarSchemaStore.RetrieveContext` inherit this.
- UrlParsing.UrlJoin: the `ValueError` for an unmatched bracket in the authority and the NFKC check of the authority are not modelled. The lemmas about it cover a root path with an optional query; params, fragments and relative paths are computed but have no lemma of their own.
- ReadRecord: a non-text `entity_id` or `source_type` is treated as an unreadable record. Python passes such values on to `store_entity`.
- MetadataOf: a truthy `source_metadata` that is not a dict is an error here. Python fails on it only when `structured_data` has an extra field to merge in, and otherwise stores its JSON.
- DuckDB's casts of a non-text url, content or `title` into `VARCHAR` columns are not modelled; the values are stored as they are, so `StarSchemaStorage.ToStoredEntity` reads back a number, list or dict title as that value where DuckDB would return its text.
- `StarSchemaStorage.StarSchemaStore.QueryEntities` and `StarSchemaStorage.StarSchemaStore.RetrieveContext` take `limit` and `offset` as natural numbers. Python accepts negative integers there, and DuckDB rejects them with an error that the model does not include.
- MetadataDatasets.FullDefaults: the thirteen default entries carry no contract of their own; a contract over that literal list is too costly for the verifier. `MetadataDatasets.GenerateFullMetadata` states what is built from it.
- PolicyExtractor.RecordedModel: `extract` records the constructor's `model_name` as written (`PolicyExtractor.RecordedModelAsWritten`), so `PolicyExtractor.ExtractSpec` and `PolicyExtractor.PolicyRequirementsExtractor.Extract` say what the program stores; the intended value of the finding below, the model that was called, is stated beside it and not used by `extract`.
- The spider's items keep the classification as written (`CivicSpider.ClassifyAsset`), so they say what the program yields; the intended classification of the finding below is stated beside it and not used by `CivicSpider.LinkItem`.
- UI code, the reference code, the code, media and meeting extractors, the dataset-generation scripts other than `scripts/generate_metadata_only.py`, downloading and `transform.py` are not part of this model. They are I/O, front end or model calls.

## Findings

| source | as written | input that shows it | evidently intended | confidence | as-written member | corrected member |
|---|---|---|---|---|---|---|
| src/structure_it/extractors/policy_extractor.py:208 | `model_used = self.model_name` records `None` when the extractor is built with no model name, which is what the example script does by default (`examples/extract_policy_requirements.py:206`). The Gemini extractor still calls its default model (`src/structure_it/extractors/gemini.py:37`). | `PolicyRequirementsExtractor(model_name=None)`, then `extract` with a successful model answer | `model_used` names the model that was actually called | not executed; medium | `PolicyExtractor.RecordedModelAsWrittenMismatch` | `PolicyExtractor.RecordedModel` |
| src/structure_it/scrapers/civic_plus/spider.py:104-125 | every selected `href` starts with `/AgendaCenter/ViewFile`, whose lowercase form contains "agenda", so the second test already answers `Agenda`; the minutes, audio, video and captions tests and the link-text fallback are never reached | `/AgendaCenter/ViewFile/Minutes/_01152024-100` is classified `Agenda` | as the comment at lines 85-88 says, the document part after the view-file prefix decides the type, so a minutes file is `Minutes` | not executed; high | `CivicSpider.MinutesLinkAsWritten` | `CivicSpider.IntendedAssetType` |
