/**
 * The table handlers: listing (a loop over the catalog's enumeration that
 * stops at the first error), creation with its option list, load, commit,
 * drop, existence and rename.
 */
module Tables {
  import opened Wrappers
  import opened Models
  import opened CatalogApi
  import opened Errors
  import opened Http

  // ---------------------------------------------------------------------------
  // Error mappings, stated outright

  /** A failed table lookup or commit: namespace-not-found before table-not-found, anything else internal. */
  predicate LookupFailed(err: CatalogError, r: Response) {
    if NoSuchNamespace in err.matches then r == Fault(ErrNamespaceNotFound)
    else if NoSuchTable in err.matches then r == Fault(ErrTableNotFound)
    else r == Fault(ErrInternalServerError)
  }

  /** A failed creation: namespace-not-found before table-already-exists, anything else internal. */
  predicate CreateFailed(err: CatalogError, r: Response) {
    if NoSuchNamespace in err.matches then r == Fault(ErrNamespaceNotFound)
    else if TableAlreadyExists in err.matches then r == Fault(ErrTableAlreadyExists)
    else r == Fault(ErrInternalServerError)
  }

  /** The response to a failed table lookup, as the handlers compute it. */
  function LookupFault(err: CatalogError): (r: Response)
    ensures LookupFailed(err, r)
  {
    TableLookupPrecedence(err);
    Fault(Classify(err, TableLookupRules))
  }

  // ---------------------------------------------------------------------------
  // ListTables

  /** The enumeration the catalog yields for a namespace: identifiers or errors, in order. */
  type Enumeration = seq<Outcome<seq<string>>>

  /** The index of the first error of an enumeration, or its length when there is none. */
  function FirstFailure(items: Enumeration): (k: nat)
    ensures k <= |items|
    ensures forall j :: 0 <= j < k ==> items[j].Ok?
    ensures k < |items| ==> items[k].Fail?
    decreases |items|
  {
    if items == [] then 0
    else if items[0].Fail? then 0
    else
      var k := FirstFailure(items[1..]);
      assert forall j :: 1 <= j < k + 1 ==> items[j] == items[1..][j - 1];
      k + 1
  }

  /**
   * What the listing loop collects from an enumeration without errors: the
   * empty identifiers are skipped and every other one becomes its namespace
   * prefix and its last component, so at most one identifier comes from each
   * element and none is dropped when no element is empty. Defined element by
   * element from the back, as the loop builds it.
   */
  function Listed(items: Enumeration): (ids: seq<Identifier>)
    ensures |ids| <= |items|
    ensures (forall j :: 0 <= j < |items| ==> items[j].Ok? && |items[j].value| > 0) ==> |ids| == |items|
    decreases |items|
  {
    if items == [] then []
    else
      var ids := Listed(items[..|items| - 1]);
      var last := items[|items| - 1];
      if last.Ok? && |last.value| > 0 then ids + [IdentifierOf(last.value)] else ids
  }

  /** Reference definition: the non-empty identifiers the enumeration yields, in enumeration order. */
  function Present(items: Enumeration): seq<seq<string>>
    decreases |items|
  {
    if items == [] then []
    else (if items[0].Ok? && |items[0].value| > 0 then [items[0].value] else []) + Present(items[1..])
  }

  lemma {:induction false} PresentSnoc(items: Enumeration, last: Outcome<seq<string>>)
    ensures Present(items + [last]) ==
            Present(items) + (if last.Ok? && |last.value| > 0 then [last.value] else [])
    decreases |items|
  {
    if items == [] {
      assert [] + [last] == [last];
      assert [last][1..] == [];
    } else {
      var head := if items[0].Ok? && |items[0].value| > 0 then [items[0].value] else [];
      var tail := if last.Ok? && |last.value| > 0 then [last.value] else [];
      assert (items + [last])[0] == items[0];
      assert (items + [last])[1..] == items[1..] + [last];
      calc {
        Present(items + [last]);
        head + Present(items[1..] + [last]);
        { PresentSnoc(items[1..], last); }
        head + (Present(items[1..]) + tail);
        (head + Present(items[1..])) + tail;
        Present(items) + tail;
      }
    }
  }

  /**
   * The listing preserves enumeration order and loses nothing: the j-th
   * identifier returned, joined back, is the j-th non-empty identifier the
   * catalog yielded.
   */
  lemma {:induction false} ListedJoinsBack(items: Enumeration)
    ensures |Listed(items)| == |Present(items)|
    ensures forall j :: 0 <= j < |Listed(items)| ==> TableIdent(Listed(items)[j]) == Present(items)[j]
    decreases |items|
  {
    if items != [] {
      var front := items[..|items| - 1];
      var last := items[|items| - 1];
      ListedJoinsBack(front);
      assert items == front + [last];
      PresentSnoc(front, last);
    }
  }

  /** GET /v1/namespaces/{namespace}/tables; `pulled` counts the enumeration elements consumed. */
  method ListTables(h: CatalogHandler, namespaceParam: string) returns (x: Exchange, pulled: nat)
    ensures StatusIsErrorCode(x.response)
    ensures var ns := Split(namespaceParam);
            var items := h.catalog.listTables(ns);
            var k := FirstFailure(items);
            x.calls == [ListTablesCall(ns)] &&
            (k < |items| ==> x.response == Fault(ErrInternalServerError) && pulled == k + 1) &&
            (k == |items| ==>
               x.response == Response(StatusOK, TableList(ListTablesResponse(Listed(items), None))) &&
               pulled == |items|)
  {
    var namespace := Split(namespaceParam);
    var items := h.catalog.listTables(namespace);
    var resTables: seq<Identifier> := [];
    var i := 0;
    while i < |items|
      invariant 0 <= i <= |items|
      invariant forall j :: 0 <= j < i ==> items[j].Ok?
      invariant resTables == Listed(items[..i])
    {
      var item := items[i];
      assert items[..i + 1][..i] == items[..i];
      i := i + 1;
      if item.Fail? {
        x, pulled := Exchange([ListTablesCall(namespace)], Fault(ErrInternalServerError)), i;
        return;
      }
      if |item.value| == 0 {
        continue;
      }
      resTables := resTables + [IdentifierOf(item.value)];
    }
    assert items[..i] == items;
    x := Exchange([ListTablesCall(namespace)], Response(StatusOK, TableList(ListTablesResponse(resTables, None))));
    pulled := i;
  }

  // ---------------------------------------------------------------------------
  // CreateTable

  /** The position of an option in the fixed order: location, partition spec, write order, properties. */
  function Rank(o: CreateTableOpt): nat {
    match o
    case WithLocation(_) => 0
    case WithPartitionSpec(_) => 1
    case WithSortOrder(_) => 2
    case WithProperties(_) => 3
  }

  /** True when the request asks for exactly this option: a non-empty location, or a present field. */
  predicate Requested(req: CreateTableRequest, o: CreateTableOpt) {
    match o
    case WithLocation(l) => req.location != "" && l == req.location
    case WithPartitionSpec(p) => req.partitionSpec == Some(p)
    case WithSortOrder(s) => req.writeOrder == Some(s)
    case WithProperties(p) => req.props == Some(p)
  }

  /**
   * The creation options of a request: exactly the options it asks for, in
   * the fixed order, each at most once.
   */
  function CreateTableOptions(req: CreateTableRequest): (opts: seq<CreateTableOpt>)
    ensures forall o :: o in opts <==> Requested(req, o)
    ensures forall i, j :: 0 <= i < j < |opts| ==> Rank(opts[i]) < Rank(opts[j])
  {
    (if req.location != "" then [WithLocation(req.location)] else []) +
    (if req.partitionSpec.Some? then [WithPartitionSpec(req.partitionSpec.value)] else []) +
    (if req.writeOrder.Some? then [WithSortOrder(req.writeOrder.value)] else []) +
    (if req.props.Some? then [WithProperties(req.props.value)] else [])
  }

  /**
   * The reply to a created or loaded table: 500 when `marshal` cannot
   * serialise its metadata, otherwise 200 with the metadata location, the
   * serialised metadata and the table's properties as the config.
   */
  function TableLoaded(marshal: Metadata -> Option<string>, t: Table): (r: Response)
    ensures marshal(t.metadata).None? ==> r == Fault(ErrInternalServerError)
    ensures marshal(t.metadata).Some? ==>
              r.status == StatusOK &&
              r.body == TableMetadata(LoadTableResponse(t.metadataLocation, marshal(t.metadata).value, t.properties))
  {
    match marshal(t.metadata)
    case None => Fault(ErrInternalServerError)
    case Some(m) => Response(StatusOK, TableMetadata(LoadTableResponse(t.metadataLocation, m, t.properties)))
  }

  /**
   * POST /v1/namespaces/{namespace}/tables: a malformed body is 400 and
   * stage-create is 501, both before the catalog is asked; otherwise the
   * table `namespace ++ [name]` is created with the request's options.
   */
  function CreateTable(h: CatalogHandler, marshal: Metadata -> Option<string>, namespaceParam: string,
                       body: Option<CreateTableRequest>): (x: Exchange)
    ensures body.None? ==> x == Exchange([], Fault(ErrBadRequest))
    ensures body.Some? && body.value.stageCreate ==> x == Exchange([], Fault(ErrNotImplemented))
    ensures body.Some? && !body.value.stageCreate ==>
              var req := body.value;
              var ident := TableIdent(Identifier(Split(namespaceParam), req.name));
              var opts := CreateTableOptions(req);
              var o := h.catalog.createTable(ident, req.schema, opts);
              x.calls == [CreateTableCall(ident, req.schema, opts)] &&
              (o.Ok? ==> x.response == TableLoaded(marshal, o.value)) &&
              (o.Fail? ==> CreateFailed(o.error, x.response))
  {
    var namespace := Split(namespaceParam);
    match body
    case None => Exchange([], Fault(ErrBadRequest))
    case Some(req) =>
      if req.stageCreate then Exchange([], Fault(ErrNotImplemented))
      else
        var opts := CreateTableOptions(req);
        var ident := namespace + [req.name];
        var reply :=
          match h.catalog.createTable(ident, req.schema, opts)
          case Ok(t) => TableLoaded(marshal, t)
          case Fail(err) => (CreateTablePrecedence(err); Fault(Classify(err, CreateTableRules)));
        Exchange([CreateTableCall(ident, req.schema, opts)], reply)
  }

  /** Only an explicit `true` for stage-create keeps the request from the catalog. */
  lemma StageCreateOnlyWhenTrue(h: CatalogHandler, marshal: Metadata -> Option<string>, namespaceParam: string,
                                req: CreateTableRequest)
    ensures CreateTable(h, marshal, namespaceParam, Some(req)).calls == [] <==> req.stageCreate
  {
  }

  // ---------------------------------------------------------------------------
  // UpdateTable, LoadTable

  /**
   * The reply to a commit: 500 when `marshal` cannot serialise the new
   * metadata, otherwise 200 with the new metadata location and the serialised
   * metadata.
   */
  function Committed(marshal: Metadata -> Option<string>, result: (Metadata, string)): (r: Response)
    ensures marshal(result.0).None? ==> r == Fault(ErrInternalServerError)
    ensures marshal(result.0).Some? ==>
              r.status == StatusOK && r.body == CommittedTable(UpdateTableResponse(result.1, marshal(result.0).value))
  {
    match marshal(result.0)
    case None => Fault(ErrInternalServerError)
    case Some(m) => Response(StatusOK, CommittedTable(UpdateTableResponse(result.1, m)))
  }

  /**
   * POST /v1/namespaces/{namespace}/tables/{table}: an empty table name or a
   * malformed body is 400 before the catalog is asked; otherwise the table
   * is loaded and then committed with the body's requirements and updates,
   * unchanged. The identifier inside the body is not used.
   */
  function UpdateTable(h: CatalogHandler, marshal: Metadata -> Option<string>, namespaceParam: string,
                       tableParam: string, body: Option<UpdateTableRequest>): (x: Exchange)
    ensures tableParam == "" || body.None? ==> x == Exchange([], Fault(ErrBadRequest))
    ensures tableParam != "" && body.Some? ==>
              var req := body.value;
              var ident := TableIdent(Identifier(Split(namespaceParam), tableParam));
              var loaded := h.catalog.loadTable(ident);
              (loaded.Fail? ==> x.calls == [LoadTableCall(ident)] && LookupFailed(loaded.error, x.response)) &&
              (loaded.Ok? ==>
                 var c := h.catalog.commitTable(loaded.value, req.requirements, req.updates);
                 x.calls == [LoadTableCall(ident), CommitTableCall(loaded.value, req.requirements, req.updates)] &&
                 (c.Ok? ==> x.response == Committed(marshal, c.value)) &&
                 (c.Fail? ==> LookupFailed(c.error, x.response)))
  {
    var namespace := Split(namespaceParam);
    if tableParam == "" then Exchange([], Fault(ErrBadRequest))
    else
      match body
      case None => Exchange([], Fault(ErrBadRequest))
      case Some(req) =>
        var ident := namespace + [tableParam];
        match h.catalog.loadTable(ident)
        case Fail(err) => Exchange([LoadTableCall(ident)], LookupFault(err))
        case Ok(t) =>
          var calls := [LoadTableCall(ident), CommitTableCall(t, req.requirements, req.updates)];
          match h.catalog.commitTable(t, req.requirements, req.updates)
          case Fail(err) => Exchange(calls, LookupFault(err))
          case Ok(result) => Exchange(calls, Committed(marshal, result))
  }

  /** The identifier inside the update body has no influence: the path names the table. */
  lemma UpdateTableIgnoresBodyIdentifier(h: CatalogHandler, marshal: Metadata -> Option<string>, namespaceParam: string,
                                         tableParam: string, req: UpdateTableRequest, other: Identifier)
    ensures UpdateTable(h, marshal, namespaceParam, tableParam, Some(req)) ==
            UpdateTable(h, marshal, namespaceParam, tableParam, Some(req.(identifier := other)))
  {
  }

  /** GET /v1/namespaces/{namespace}/tables/{table}; an empty table name is not rejected here. */
  function LoadTable(h: CatalogHandler, marshal: Metadata -> Option<string>, namespaceParam: string,
                     tableParam: string): (x: Exchange)
    ensures var ident := TableIdent(Identifier(Split(namespaceParam), tableParam));
            var o := h.catalog.loadTable(ident);
            x.calls == [LoadTableCall(ident)] &&
            (o.Ok? ==> x.response == TableLoaded(marshal, o.value)) &&
            (o.Fail? ==> LookupFailed(o.error, x.response))
  {
    var namespace := Split(namespaceParam);
    var ident := namespace + [tableParam];
    var reply :=
      match h.catalog.loadTable(ident)
      case Ok(t) => TableLoaded(marshal, t)
      case Fail(err) => LookupFault(err);
    Exchange([LoadTableCall(ident)], reply)
  }

  // ---------------------------------------------------------------------------
  // DropTable, TableExists, RenameTable

  /**
   * DELETE /v1/namespaces/{namespace}/tables/{table}: an empty name is 400;
   * `purgeRequested=true` is refused with status 400 and the not-implemented
   * body; both before the catalog is asked. Success is 204.
   */
  function DropTable(h: CatalogHandler, namespaceParam: string, tableParam: string, purgeRequested: string): (x: Exchange)
    ensures tableParam == "" ==> x == Exchange([], Fault(ErrBadRequest))
    ensures tableParam != "" && purgeRequested == "true" ==>
              x == Exchange([], Response(StatusBadRequest, ErrorBody(ModelOf(ErrNotImplemented))))
    ensures tableParam != "" && purgeRequested != "true" ==>
              var ident := TableIdent(Identifier(Split(namespaceParam), tableParam));
              var o := h.catalog.dropTable(ident);
              x.calls == [DropTableCall(ident)] &&
              (o.Ok? ==> x.response == Response(StatusNoContent, NoBody)) &&
              (o.Fail? ==> LookupFailed(o.error, x.response))
  {
    var namespace := Split(namespaceParam);
    if tableParam == "" then Exchange([], Fault(ErrBadRequest))
    else if purgeRequested == "true" then
      Exchange([], Response(StatusBadRequest, ErrorBody(ModelOf(ErrNotImplemented))))
    else
      var ident := namespace + [tableParam];
      var reply :=
        match h.catalog.dropTable(ident)
        case Ok(_) => Status(StatusNoContent)
        case Fail(err) => LookupFault(err);
      Exchange([DropTableCall(ident)], reply)
  }

  /**
   * The purge refusal is sent with status 400 but carries the
   * not-implemented body, whose code is 501 (`ErrorStatusIsCode` shows every
   * other table error follows its code).
   */
  lemma PurgeStatusDiffersFromBodyCode(h: CatalogHandler, namespaceParam: string, tableParam: string)
    requires tableParam != ""
    ensures var r := DropTable(h, namespaceParam, tableParam, "true").response;
            r.status == 400 && r.body.ErrorBody? && r.body.error.code == 501
  {
  }

  /**
   * HEAD /v1/namespaces/{namespace}/tables/{table}: an empty name is 400
   * before the catalog is asked; a false answer is table-not-found and a
   * true answer 204.
   */
  function TableExists(h: CatalogHandler, namespaceParam: string, tableParam: string): (x: Exchange)
    ensures tableParam == "" ==> x == Exchange([], Fault(ErrBadRequest))
    ensures tableParam != "" ==>
              var ident := TableIdent(Identifier(Split(namespaceParam), tableParam));
              var o := h.catalog.checkTableExists(ident);
              x.calls == [CheckTableExistsCall(ident)] &&
              (o == Ok(false) ==> x.response == Fault(ErrTableNotFound)) &&
              (o == Ok(true) ==> x.response == Response(StatusNoContent, NoBody)) &&
              (o.Fail? ==> LookupFailed(o.error, x.response))
  {
    var namespace := Split(namespaceParam);
    if tableParam == "" then Exchange([], Fault(ErrBadRequest))
    else
      var ident := namespace + [tableParam];
      var reply :=
        match h.catalog.checkTableExists(ident)
        case Fail(err) => LookupFault(err)
        case Ok(exists_) => if !exists_ then Fault(ErrTableNotFound) else Status(StatusNoContent);
      Exchange([CheckTableExistsCall(ident)], reply)
  }

  /**
   * POST /v1/tables/rename: both identifiers are flattened as
   * `namespace ++ [name]`; success is 200 with no body.
   */
  function RenameTable(h: CatalogHandler, body: Option<RenameTableRequest>): (x: Exchange)
    ensures body.None? ==> x == Exchange([], Fault(ErrBadRequest))
    ensures body.Some? ==>
              var from := TableIdent(body.value.source);
              var to := TableIdent(body.value.destination);
              var o := h.catalog.renameTable(from, to);
              x.calls == [RenameTableCall(from, to)] &&
              (o.Ok? ==> x.response == Response(StatusOK, NoBody)) &&
              (o.Fail? ==> LookupFailed(o.error, x.response))
  {
    match body
    case None => Exchange([], Fault(ErrBadRequest))
    case Some(req) =>
      var from := req.source.namespace + [req.source.name];
      var to := req.destination.namespace + [req.destination.name];
      var reply :=
        match h.catalog.renameTable(from, to)
        case Ok(_) => Status(StatusOK)
        case Fail(err) => LookupFault(err);
      Exchange([RenameTableCall(from, to)], reply)
  }

  /** Renaming onto an existing table is not a conflict here: already-exists is not tested, so it is internal. */
  lemma RenameOntoExistingTableIsInternal(h: CatalogHandler, req: RenameTableRequest, text: string)
    requires h.catalog.renameTable(TableIdent(req.source), TableIdent(req.destination)) ==
             Fail(CatalogError({TableAlreadyExists}, text))
    ensures RenameTable(h, Some(req)).response == Fault(ErrInternalServerError)
  {
  }

  /**
   * Every table handler sends each error with the status its body's code
   * names, except DropTable's purge refusal; `ListTables` states the same in
   * its own contract.
   */
  lemma ErrorStatusIsCode(h: CatalogHandler, marshal: Metadata -> Option<string>, namespaceParam: string,
                          tableParam: string, purgeRequested: string, created: Option<CreateTableRequest>,
                          updated: Option<UpdateTableRequest>, renamed: Option<RenameTableRequest>)
    ensures StatusIsErrorCode(CreateTable(h, marshal, namespaceParam, created).response)
    ensures StatusIsErrorCode(UpdateTable(h, marshal, namespaceParam, tableParam, updated).response)
    ensures StatusIsErrorCode(LoadTable(h, marshal, namespaceParam, tableParam).response)
    ensures purgeRequested != "true" ==> StatusIsErrorCode(DropTable(h, namespaceParam, tableParam, purgeRequested).response)
    ensures StatusIsErrorCode(TableExists(h, namespaceParam, tableParam).response)
    ensures StatusIsErrorCode(RenameTable(h, renamed).response)
  {
  }
}
