/**
 * The catalog the handlers delegate to, seen from this layer: every operation
 * is a total function from its arguments to an outcome, and a catalog call a
 * handler makes is recorded as a `CatalogCall` value. What the catalog does
 * with its storage is not part of this model.
 */
module CatalogApi {
  import opened Wrappers
  import opened Models

  /** The catalog's sentinel errors that the handlers test for with errors.Is. */
  datatype Sentinel =
    | NoSuchNamespace
    | NoSuchTable
    | NamespaceAlreadyExists
    | TableAlreadyExists
    | NamespaceNotEmpty

  /**
   * A catalog error: the sentinels its wrap chain matches (possibly several,
   * possibly none) and its text, which the handlers only log.
   */
  datatype CatalogError = CatalogError(matches: set<Sentinel>, text: string)

  /** The `(value, err)` pair of a catalog call: a value when err is nil, else the error. */
  datatype Outcome<+T> = Ok(value: T) | Fail(error: CatalogError)

  /** `errors.Is(err, s)` for the error of an outcome; false on success. */
  predicate Is<T>(o: Outcome<T>, s: Sentinel) {
    o.Fail? && s in o.error.matches
  }

  /** A loaded table handle: its identifier, metadata location, metadata and properties. */
  datatype Table = Table(
    identifier: seq<string>,
    metadataLocation: string,
    metadata: Metadata,
    properties: Properties)

  /** The catalog's own record of a properties update. */
  datatype PropertiesUpdateSummary = PropertiesUpdateSummary(
    removed: seq<string>,
    updated: seq<string>,
    missing: seq<string>)

  /** The catalog's options for table creation. */
  datatype CreateTableOpt =
    | WithLocation(location: string)
    | WithPartitionSpec(spec: PartitionSpec)
    | WithSortOrder(order: SortOrder)
    | WithProperties(props: Properties)

  /** One entry of an atomic catalog transaction. */
  datatype TransactionRequest =
    | CreateTableReq(identifier: seq<string>, schema: Option<Schema>, opts: seq<CreateTableOpt>)
    | CommitTableReq(table: Table, requirements: seq<Requirement>, updates: seq<Update>)
    | SetKVSidecarReq(key: string, value: string)

  /** A secondary catalog that the transaction primitive propagates to. */
  datatype Follower = Follower(name: string)

  /** A call a handler makes to the catalog, with the arguments it passes. */
  datatype CatalogCall =
    | ListNamespacesCall(parent: seq<string>)
    | CreateNamespaceCall(namespace: Namespace, properties: Properties)
    | LoadNamespacePropertiesCall(namespace: Namespace)
    | CheckNamespaceExistsCall(namespace: Namespace)
    | DropNamespaceCall(namespace: Namespace)
    | UpdateNamespacePropertiesCall(namespace: Namespace, removals: seq<string>, propertyUpdates: Properties)
    | ListTablesCall(namespace: Namespace)
    | CreateTableCall(identifier: seq<string>, schema: Option<Schema>, opts: seq<CreateTableOpt>)
    | LoadTableCall(identifier: seq<string>)
    | CommitTableCall(table: Table, requirements: seq<Requirement>, updates: seq<Update>)
    | DropTableCall(identifier: seq<string>)
    | CheckTableExistsCall(identifier: seq<string>)
    | RenameTableCall(from: seq<string>, to: seq<string>)
    | SetKVSidecarCall(key: string, value: string)
    | GetKVSidecarCall(key: string)
    | TransactionCall(requests: seq<TransactionRequest>, followers: seq<Follower>)

  /**
   * The transaction catalog as an oracle: what each operation answers for
   * given arguments. `listTables` is the finite enumeration of (identifier,
   * error) pairs the catalog yields; `commitTable` answers the new metadata
   * and its location.
   */
  datatype Catalog = Catalog(
    listNamespaces: seq<string> -> Outcome<seq<Namespace>>,
    createNamespace: (Namespace, Properties) -> Outcome<()>,
    loadNamespaceProperties: Namespace -> Outcome<Properties>,
    checkNamespaceExists: Namespace -> Outcome<bool>,
    dropNamespace: Namespace -> Outcome<()>,
    updateNamespaceProperties: (Namespace, seq<string>, Properties) -> Outcome<PropertiesUpdateSummary>,
    listTables: Namespace -> seq<Outcome<seq<string>>>,
    createTable: (seq<string>, Option<Schema>, seq<CreateTableOpt>) -> Outcome<Table>,
    loadTable: seq<string> -> Outcome<Table>,
    commitTable: (Table, seq<Requirement>, seq<Update>) -> Outcome<(Metadata, string)>,
    dropTable: seq<string> -> Outcome<()>,
    checkTableExists: seq<string> -> Outcome<bool>,
    renameTable: (seq<string>, seq<string>) -> Outcome<Table>,
    setKVSidecar: (string, string) -> Outcome<()>,
    getKVSidecar: string -> Outcome<string>,
    transaction: (seq<TransactionRequest>, seq<Follower>) -> Outcome<()>)

  /** The handler's dependencies: the primary catalog and its followers, fixed at construction. */
  datatype CatalogHandler = CatalogHandler(catalog: Catalog, followers: seq<Follower>)
}
