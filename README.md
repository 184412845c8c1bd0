# Iceberg REST catalog handlers in Dafny

This project models the protocol-translation layer of an Iceberg REST
catalog server: the HTTP handlers that sit between the REST API and a
transaction-capable catalog. Each handler follows the same steps:

1. It decodes its path segments, query or JSON body.
2. It may reject the request before the catalog is asked: a malformed body, an empty table name, a duplicate property key, stage-create, or purge.
3. It makes its catalog calls.
4. It maps the catalog's outcome to one HTTP status and either a response body or one of nine constant error records.

The modules follow the handler package:

- `Models` (models.dfy) holds the wire shapes and the identifier codec. A namespace travels in one URL path segment, with its levels joined by the unit separator 0x1F. A table identifier is a namespace plus a last component, the name.
- `Errors` (errors.dfy) holds the nine error records and the first-match mapping from a catalog error's sentinels to a record, with five rule lists that the handlers share. NamespaceExists, the sidecar handlers and the transaction endpoint use no rule list: every catalog error is 500 there.
- `CatalogApi` (catalog.dfy) describes the catalog as seen by the handlers.
  - Every catalog operation is a total function from its arguments to an outcome: a value, or an error that matches a set of sentinels.
  - A handler's calls are recorded as `CatalogCall` values.
- `Http` (http.dfy) holds responses and the `Exchange` a handler produces: the catalog calls it made, in order, and the response it sent.
- `Namespaces` (namespaces.dfy) holds the six namespace handlers.
- `Tables` (tables.dfy) holds the seven table handlers.
  - Table listing is a method with a loop over the catalog's enumeration. It skips empty identifiers and stops at the first error.
- `Transaction` (transaction.dfy) holds the two sidecar handlers and the batch transaction endpoint.
  - The transaction endpoint is a method whose loop turns the descriptors into catalog requests, loading each table to be updated on the way.
  - The method is proved against the specification function `PlanOf`.
- `Wrappers` (wrappers.dfy) holds `Option`.

The handlers that contain no loop are functions. Their `ensures` clauses give the whole outcome, case by case:

- which requests never reach the catalog (`calls == []`);
- which catalog call is made, with which arguments;
- which response each catalog outcome produces.

Error precedence is stated as separate predicates (`FirstOfTwo`, `Tables.LookupFailed`, `Tables.CreateFailed`). It is observable because one wrapped catalog error can match several sentinels.

Where the behaviour described for the system and its code differ, the model follows the code:

- A purge request on drop-table is answered with HTTP status 400 carrying the not-implemented body, whose code is 501. It is not answered with status 501.
- Renaming onto an existing table is not reported as a conflict. The already-exists sentinel is not tested, so the response is 500.
- No handler paginates. `next-page-token` is never set, and page token and page size are ignored.
- Table load does not reject an empty table name, unlike update, drop and exists.
- Table update ignores the identifier inside its body. The path names the table.

## Model

| member | source | states |
|---|---|---|
| Models.Split | api/handlers/namespaces.go:25 | splitting on 0x1F always yields at least one component, and no component contains the separator |
| Models.JoinSplit | api/handlers/models.go:10 | joining the split pieces of any segment with 0x1F gives the segment back |
| Models.SplitJoin | api/handlers/models.go:10 | splitting the join of a non-empty list of separator-free components gives the components back |
| Models.EmptySegmentIsOneEmptyComponent | api/handlers/namespaces.go:79 | an empty path segment decodes to the one-element namespace `[""]`, never to the empty namespace |
| Models.SeparatorBreaksRoundTrip | api/handlers/models.go:10 | no escaping is done: when any component contains 0x1F, the round trip comes back with more components than went in, so it never gives the components back |
| Models.EmptyNamespaceDoesNotRoundTrip | api/handlers/models.go:10 | the empty namespace joins to "" and comes back as `[""]` |
| Models.TableIdent | api/handlers/tables.go:113 | the flat identifier `namespace ++ [name]` has the namespace as its prefix and the name last |
| Models.IdentifierOf | api/handlers/tables.go:68-71 | splitting a non-empty flat identifier into prefix and last component and joining it back gives the flat identifier |
| Models.IdentifierRoundTrip | api/handlers/models.go:14-17 | joining an identifier and then splitting it gives the identifier back |
| Errors.ModelOf | api/handlers/errors.go:15-67 | each kind's fixed code (500, 400, 404, 409, 409, 422, 501, 409, 404); the internal record's message; the 404 type tags; exactly the two already-exists kinds carry `AlreadyExistsException` |
| Errors.NotFoundCode | api/handlers/errors.go:27-67 | code 404 belongs to exactly namespace-not-found and table-not-found |
| Errors.ConflictCode | api/handlers/errors.go:33-61 | code 409 belongs to exactly the two already-exists kinds and not-empty |
| Errors.NotFoundKindsDifferInType | api/handlers/errors.go:27-67 | the two not-found records share code 404 and differ in type tag |
| Errors.AlreadyExistsKindsDifferInMessageOnly | api/handlers/errors.go:33-61 | the two already-exists records share type tag and code and differ in message |
| Errors.NotEmptyHasItsOwnType | api/handlers/errors.go:39-43 | not-empty shares 409 with already-exists but has its own type tag |
| Errors.RecordKindOfModelOf | api/handlers/errors.go:15-67 | each record reads back as its own kind |
| Errors.ModelOfInjective | api/handlers/errors.go:15-67 | no two kinds share a record, so an error body identifies its kind |
| Errors.Classify | api/handlers/tables.go:114-131 | the first rule whose sentinel the error matches decides the record; an error matching none is internal |
| Errors.ClassifyIgnoresText | api/handlers/namespaces.go:29-40 | the error record never depends on the catalog error's text, only on its sentinels |
| Errors.DropNamespacePrecedence | api/handlers/namespaces.go:124-141 | namespace drop tests not-found before not-empty, else internal |
| Errors.TableLookupPrecedence | api/handlers/tables.go:173-190 | table lookups test namespace-not-found before table-not-found, else internal |
| Errors.CreateTablePrecedence | api/handlers/tables.go:114-131 | table creation tests namespace-not-found before table-already-exists, else internal |
| Http.Fault | api/handlers/errors.go:5-13 | an error response carries the kind's record, with the record's code as its status |
| Namespaces.ParentOf | api/handlers/namespaces.go:23-26 | an absent parent is the empty filter; a present one is its non-empty, separator-free split that joins back to the query text |
| Namespaces.AbsentAndEmptyParentDiffer | api/handlers/namespaces.go:23-26 | an absent parent and an empty parent are different filters (`[]` and `[""]`) |
| Namespaces.ListNamespaces | api/handlers/namespaces.go:12-47 | query that fails to bind: 400 with no catalog call. Otherwise one list call with the decoded parent. Not-found is 404, other errors 500. Success is 200 with the catalog's namespaces unchanged and no next-page token. |
| Namespaces.CreateNamespace | api/handlers/namespaces.go:49-74 | body that fails to bind: 400 with no call. Already-exists is 409, other errors 500. Success is 200 echoing the request. |
| Namespaces.LoadNamespaceMetadata | api/handlers/namespaces.go:76-98 | one properties call with the split segment. Not-found is 404, other errors 500. Success is 200 with the decoded namespace and the catalog's properties. |
| Namespaces.NamespaceExists | api/handlers/namespaces.go:100-118 | every catalog error is 500, never 404. An answer of false is namespace-not-found; true is 204 with no body. |
| Namespaces.DropNamespace | api/handlers/namespaces.go:120-144 | not-found is 404; not-empty without not-found is 409; other errors 500; success 204 |
| Namespaces.UpdateProperties | api/handlers/namespaces.go:146-187 | body that fails to bind: 400. A key both removed and updated: 422 with no catalog call. Otherwise success is 200 with the summary's updated, removed and missing lists verbatim. Not-found is 404, other errors 500. |
| Namespaces.HasDuplicateKey | api/handlers/namespaces.go:159-166 | the scan over the removal keys finds a duplicate exactly when some key is both a removal and an update key |
| Namespaces.DuplicateKeyMeansSharedKey | api/handlers/namespaces.go:159-166 | the duplicate-key test holds exactly when the removal at some position is an update key |
| Namespaces.ErrorStatusIsCode | api/handlers/namespaces.go:12-187 | every namespace handler sends each error body with the status its code names |
| Tables.LookupFault | api/handlers/tables.go:173-190 | the lookup error response follows the namespace-before-table precedence |
| Tables.FirstFailure | api/handlers/tables.go:55-62 | the index of the first error element of the enumeration, or its length when there is none |
| Tables.Listed | api/handlers/tables.go:54-72 | the collected identifiers number at most the enumeration's elements, and exactly as many when no element is empty |
| Tables.ListedJoinsBack | api/handlers/tables.go:64-71 | the collected identifiers, joined back, are exactly the non-empty identifiers of the enumeration, in enumeration order |
| Tables.ListTables | api/handlers/tables.go:49-77 | one list call. If an element carries an error, the response is 500 and nothing collected is returned, and consumption stops right after that element. Otherwise 200 with the collected identifiers, after consuming the whole enumeration. Every error body is sent with its code as the status. |
| Tables.CreateTableOptions | api/handlers/tables.go:99-111 | exactly the requested options (non-empty location, present spec, write order, properties), each at most once, in that fixed order |
| Tables.TableLoaded | api/handlers/tables.go:134-148 | metadata that cannot be serialised is 500; otherwise 200 with the table's location, the serialised metadata and the table's properties as config (LoadTable sends the same, api/handlers/tables.go:258-273) |
| Tables.CreateTable | api/handlers/tables.go:79-149 | body that fails to bind: 400. Stage-create: 501. Neither calls the catalog. Otherwise one create of `namespace ++ [name]` with the options. Namespace-not-found before already-exists, else 500. Success is 200 with the marshalled metadata, or 500 when marshalling fails. |
| Tables.StageCreateOnlyWhenTrue | api/handlers/tables.go:92-97 | a create request reaches no catalog call exactly when stage-create is true |
| Tables.Committed | api/handlers/tables.go:214-227 | new metadata that cannot be serialised is 500; otherwise 200 with the commit's metadata location and the serialised metadata |
| Tables.UpdateTable | api/handlers/tables.go:151-228 | an empty name or a body that fails to bind: 400 with no call. Otherwise a load, then a commit of the loaded table with the body's requirements and updates unchanged. Both steps use the lookup precedence. Success is 200 with the new location and marshalled metadata. |
| Tables.UpdateTableIgnoresBodyIdentifier | api/handlers/tables.go:164-172 | the identifier inside the update body has no influence on the exchange |
| Tables.LoadTable | api/handlers/tables.go:230-274 | one load of `namespace ++ [name]`, with an empty name not rejected. Lookup precedence on error. Success is 200 with the table's location, marshalled metadata and properties. |
| Tables.DropTable | api/handlers/tables.go:276-320 | an empty name is 400. `purgeRequested` exactly "true" is status 400 with the not-implemented body. Neither calls the catalog. Otherwise one drop, with lookup precedence on error and 204 on success. |
| Tables.PurgeStatusDiffersFromBodyCode | api/handlers/tables.go:289-296 | the purge refusal's status is 400 while its body's code is 501 |
| Tables.TableExists | api/handlers/tables.go:322-364 | an empty name is 400 with no call. Lookup precedence on error. False is table-not-found; true is 204. |
| Tables.RenameTable | api/handlers/tables.go:366-403 | body that fails to bind: 400. Otherwise one rename from `source` to `destination`, each flattened. Lookup precedence on error; success is 200 with no body. |
| Tables.RenameOntoExistingTableIsInternal | api/handlers/tables.go:382-399 | a rename failing only with already-exists is answered 500, not 409 |
| Tables.ErrorStatusIsCode | api/handlers/tables.go:79-403 | every table handler sends each error body with the status its code names, except DropTable's purge refusal |
| Transaction.SetKVSidecar | api/handlers/transaction.go:16-32 | body that fails to bind: 400 with no call. Catalog error is 500; success is 202 with no body. |
| Transaction.GetKVSidecar | api/handlers/transaction.go:34-48 | catalog error is 500; success is 200 with the requested key echoed and the catalog's value |
| Transaction.SidecarErrorStatusIsCode | api/handlers/transaction.go:16-48 | both sidecar handlers send each error body with the status its code names |
| Transaction.ShapeLength | api/handlers/transaction.go:69-111 | the reference shape of a batch has one entry per present descriptor field |
| Transaction.CreateRequestOf | api/handlers/transaction.go:70-88 | a create descriptor becomes a request with identifier exactly `[namespace, name]` (namespace not split), the body's schema and the option list CreateTable builds; stage-create is not looked at |
| Transaction.StepOutcome | api/handlers/transaction.go:70-110 | one iteration of the loop makes exactly the descriptor's update-table load, and yields no requests exactly when that load fails |
| Transaction.StepContract | api/handlers/transaction.go:70-110 | when its load succeeds, one descriptor contributes one request per present field: the creation first, the commit of the loaded table with the descriptor's requirements and updates right after it, and the sidecar write `SetKVSidecarReq(key, value)` last |
| Transaction.PlanLoads | api/handlers/transaction.go:69-111 | the whole loop makes at most one load per descriptor, and when no load fails exactly the loads of the update-table fields, in order |
| Transaction.PlanStopsAtFailure | api/handlers/transaction.go:92-98 | after a failed load, later descriptors add no loads and no requests |
| Transaction.PlanFailsIffSomeLoadFails | api/handlers/transaction.go:90-98 | a batch fails exactly when some update descriptor's load fails |
| Transaction.PlanFollowsShape | api/handlers/transaction.go:69-111 | a successful batch keeps descriptor order: the kinds of its requests are the descriptors' shapes in order, so its length is the number of present fields |
| Transaction.PlanConcat | api/handlers/transaction.go:69-111 | splitting a batch after a first half that does not fail: the whole makes the first half's loads followed by the second half's, and its requests are the two halves' requests in order, or none when the second half fails |
| Transaction.Transaction | api/handlers/transaction.go:59-121 | body that fails to bind: 400 with no call. A failed load: 500 after exactly the loads made so far, and the transaction is never submitted. Otherwise exactly one transaction call, with the whole request list and the handler's followers; error 500, success 200. Every error body is sent with its code as the status. |

## Left out

- GetConfig (api/handlers/tables.go:39-47): it only returns the configured defaults and overrides and warns about a `warehouse` query.
- The catalog itself is an oracle; its semantics are not modelled. That covers namespace emptiness, requirement checking, atomic commit, follower propagation and rename collisions. For example, that a properties summary partitions the keys is the catalog's promise, not the handler's.
- JSON binding is modelled as success or failure (`None`) of decoding the body or query. gin's rules for which inputs fail to bind are not modelled.
- Marshalling of table metadata is a parameter `marshal` that may fail; its output is not modelled.
- Go's distinction between a nil slice and an empty slice is not modelled. That covers the JSON `null` versus `[]` for an empty listing and absent versus empty options.
- Go's `append` onto a slice taken from a body (api/handlers/transaction.go:91) could alias it; values here do not alias.
- Logging (getLogger, the `log.Errorf` and `log.Warn` calls), the request context and the HTTP framework are left out.
- `ListTablesRequest` (api/handlers/models.go:52-55) is declared but never bound by a handler, and the list-namespaces page token and size are bound and ignored, so no pagination is modelled.
- Iceberg schemas, partition specs, sort orders, requirements, updates and metadata are opaque values passed along unchanged.
- Dafny strings are sequences of Unicode scalar values, while Go's `strings.Split` works on bytes. The two agree on valid UTF-8 because 0x1F is ASCII, but a path segment that is not valid UTF-8 cannot be written in the model.
- Go's distinction between a nil map and an empty map is not modelled. For example, `properties` in the CreateNamespace echo (api/handlers/namespaces.go:73) may be `null` or `{}` on the wire.
- The catalog oracle gives the same answer to repeated identical calls within one request. A batch that loads the same table twice (api/handlers/transaction.go:92) therefore cannot see it change between the two loads.
- A table enumeration whose elements carry both an identifier and an error is modelled as the error alone, since the handler looks only at the error then.
