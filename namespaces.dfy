/**
 * The namespace handlers. Each decodes its path segment or body, possibly
 * rejects the request before the catalog is asked, makes one catalog call
 * and maps its outcome to one response.
 */
module Namespaces {
  import opened Wrappers
  import opened Models
  import opened CatalogApi
  import opened Errors
  import opened Http

  /**
   * The parent filter handed to the catalog: nil when the query has no
   * `parent`, else the parent split on the separator (never empty then, and
   * joining it back gives the query text).
   */
  function ParentOf(req: ListNamespacesRequest): (parent: seq<string>)
    ensures req.parent.None? ==> parent == []
    ensures req.parent.Some? ==>
              |parent| >= 1 && ComponentsSeparatorFree(parent) && Join(parent) == req.parent.value
  {
    match req.parent
    case None => []
    case Some(p) => JoinSplit(p); Split(p)
  }

  /** An absent parent and an empty parent are different filters. */
  lemma AbsentAndEmptyParentDiffer(token: Option<string>, size: Option<int>)
    ensures ParentOf(ListNamespacesRequest(None, token, size)) == []
    ensures ParentOf(ListNamespacesRequest(Some(""), token, size)) == [""]
  {
  }

  /** GET /v1/namespaces. */
  function ListNamespaces(h: CatalogHandler, query: Option<ListNamespacesRequest>): (x: Exchange)
    ensures query.None? ==> x == Exchange([], Fault(ErrBadRequest))
    ensures query.Some? ==>
              var parent := ParentOf(query.value);
              var o := h.catalog.listNamespaces(parent);
              x.calls == [ListNamespacesCall(parent)] &&
              (o.Ok? ==> x.response == Response(StatusOK, NamespaceList(ListNamespacesResponse(o.value, None)))) &&
              (Is(o, NoSuchNamespace) ==> x.response == Fault(ErrNamespaceNotFound)) &&
              (o.Fail? && !Is(o, NoSuchNamespace) ==> x.response == Fault(ErrInternalServerError))
  {
    match query
    case None => Exchange([], Fault(ErrBadRequest))
    case Some(req) =>
      var parent := ParentOf(req);
      var reply :=
        match h.catalog.listNamespaces(parent)
        case Fail(err) => Fault(Classify(err, NamespaceLookupRules))
        case Ok(namespaces) => Response(StatusOK, NamespaceList(ListNamespacesResponse(namespaces, None)));
      Exchange([ListNamespacesCall(parent)], reply)
  }

  /** POST /v1/namespaces: a successful create echoes the request. */
  function CreateNamespace(h: CatalogHandler, body: Option<CreateNamespaceRequest>): (x: Exchange)
    ensures body.None? ==> x == Exchange([], Fault(ErrBadRequest))
    ensures body.Some? ==>
              var req := body.value;
              var o := h.catalog.createNamespace(req.namespace, req.properties);
              x.calls == [CreateNamespaceCall(req.namespace, req.properties)] &&
              (o.Ok? ==> x.response == Response(StatusOK, CreatedNamespace(req))) &&
              (Is(o, NamespaceAlreadyExists) ==> x.response == Fault(ErrNamespaceAlreadyExists)) &&
              (o.Fail? && !Is(o, NamespaceAlreadyExists) ==> x.response == Fault(ErrInternalServerError))
  {
    match body
    case None => Exchange([], Fault(ErrBadRequest))
    case Some(req) =>
      var reply :=
        match h.catalog.createNamespace(req.namespace, req.properties)
        case Fail(err) => Fault(Classify(err, CreateNamespaceRules))
        case Ok(_) => Response(StatusOK, CreatedNamespace(req));
      Exchange([CreateNamespaceCall(req.namespace, req.properties)], reply)
  }

  /** GET /v1/namespaces/{namespace}: the decoded namespace and the catalog's properties. */
  function LoadNamespaceMetadata(h: CatalogHandler, namespaceParam: string): (x: Exchange)
    ensures var ns := Split(namespaceParam);
            var o := h.catalog.loadNamespaceProperties(ns);
            x.calls == [LoadNamespacePropertiesCall(ns)] &&
            (o.Ok? ==> x.response == Response(StatusOK, NamespaceMetadata(LoadNamespaceMetadataResponse(ns, o.value)))) &&
            (Is(o, NoSuchNamespace) ==> x.response == Fault(ErrNamespaceNotFound)) &&
            (o.Fail? && !Is(o, NoSuchNamespace) ==> x.response == Fault(ErrInternalServerError))
  {
    var namespace := Split(namespaceParam);
    var reply :=
      match h.catalog.loadNamespaceProperties(namespace)
      case Fail(err) => Fault(Classify(err, NamespaceLookupRules))
      case Ok(properties) =>
        Response(StatusOK, NamespaceMetadata(LoadNamespaceMetadataResponse(namespace, properties)));
    Exchange([LoadNamespacePropertiesCall(namespace)], reply)
  }

  /**
   * HEAD /v1/namespaces/{namespace}: every catalog error is internal (never
   * not-found); a false answer is not-found and a true answer is 204 with no body.
   */
  function NamespaceExists(h: CatalogHandler, namespaceParam: string): (x: Exchange)
    ensures var ns := Split(namespaceParam);
            var o := h.catalog.checkNamespaceExists(ns);
            x.calls == [CheckNamespaceExistsCall(ns)] &&
            (o.Fail? ==> x.response == Fault(ErrInternalServerError)) &&
            (o == Ok(false) ==> x.response == Fault(ErrNamespaceNotFound)) &&
            (o == Ok(true) ==> x.response == Response(StatusNoContent, NoBody))
  {
    var namespace := Split(namespaceParam);
    var reply :=
      match h.catalog.checkNamespaceExists(namespace)
      case Fail(_) => Fault(ErrInternalServerError)
      case Ok(exists_) => if !exists_ then Fault(ErrNamespaceNotFound) else Status(StatusNoContent);
    Exchange([CheckNamespaceExistsCall(namespace)], reply)
  }

  /** DELETE /v1/namespaces/{namespace}: not-found is tested before not-empty. */
  function DropNamespace(h: CatalogHandler, namespaceParam: string): (x: Exchange)
    ensures var ns := Split(namespaceParam);
            var o := h.catalog.dropNamespace(ns);
            x.calls == [DropNamespaceCall(ns)] &&
            (o.Ok? ==> x.response == Response(StatusNoContent, NoBody)) &&
            (Is(o, NoSuchNamespace) ==> x.response == Fault(ErrNamespaceNotFound)) &&
            (Is(o, NamespaceNotEmpty) && !Is(o, NoSuchNamespace) ==> x.response == Fault(ErrNamespaceNotEmpty)) &&
            (o.Fail? && !Is(o, NoSuchNamespace) && !Is(o, NamespaceNotEmpty) ==>
               x.response == Fault(ErrInternalServerError))
  {
    var namespace := Split(namespaceParam);
    var reply :=
      match h.catalog.dropNamespace(namespace)
      case Ok(_) => Status(StatusNoContent)
      case Fail(err) => (DropNamespacePrecedence(err); Fault(Classify(err, DropNamespaceRules)));
    Exchange([DropNamespaceCall(namespace)], reply)
  }

  /**
   * The scan over the removal keys, in order, that stops at the first one
   * that is also an update key: it finds one exactly when some key is both
   * removed and updated.
   */
  function HasDuplicateKey(removals: seq<string>, updates: Properties): (b: bool)
    ensures b <==> exists k :: k in removals && k in updates
    decreases |removals|
  {
    if removals == [] then false
    else
      assert removals == [removals[0]] + removals[1..];
      removals[0] in updates || HasDuplicateKey(removals[1..], updates)
  }

  /**
   * POST /v1/namespaces/{namespace}/properties: a key both removed and
   * updated is refused with 422 before the catalog is asked; otherwise the
   * catalog's summary lists are returned as they are.
   */
  function UpdateProperties(h: CatalogHandler, namespaceParam: string, body: Option<UpdatePropertiesRequest>): (x: Exchange)
    ensures body.None? ==> x == Exchange([], Fault(ErrBadRequest))
    ensures body.Some? && HasDuplicateKey(body.value.removals, body.value.updates) ==> x == Exchange([], Fault(ErrUnprocessableEntityDuplicateKey))
    ensures body.Some? && !HasDuplicateKey(body.value.removals, body.value.updates) ==>
              var ns := Split(namespaceParam);
              var req := body.value;
              var o := h.catalog.updateNamespaceProperties(ns, req.removals, req.updates);
              x.calls == [UpdateNamespacePropertiesCall(ns, req.removals, req.updates)] &&
              (o.Ok? ==> x.response == Response(StatusOK, PropertiesSummary(
                                                  UpdatePropertiesResponse(o.value.updated, o.value.removed, o.value.missing)))) &&
              (Is(o, NoSuchNamespace) ==> x.response == Fault(ErrNamespaceNotFound)) &&
              (o.Fail? && !Is(o, NoSuchNamespace) ==> x.response == Fault(ErrInternalServerError))
  {
    var namespace := Split(namespaceParam);
    match body
    case None => Exchange([], Fault(ErrBadRequest))
    case Some(req) =>
      if HasDuplicateKey(req.removals, req.updates) then Exchange([], Fault(ErrUnprocessableEntityDuplicateKey))
      else
        var reply :=
          match h.catalog.updateNamespaceProperties(namespace, req.removals, req.updates)
          case Fail(err) => Fault(Classify(err, NamespaceLookupRules))
          case Ok(summary) =>
            Response(StatusOK, PropertiesSummary(UpdatePropertiesResponse(summary.updated, summary.removed, summary.missing)));
        Exchange([UpdateNamespacePropertiesCall(namespace, req.removals, req.updates)], reply)
  }

  /** The duplicate-key test holds exactly when the removal key at some position is an update key. */
  lemma DuplicateKeyMeansSharedKey(removals: seq<string>, updates: Properties)
    ensures HasDuplicateKey(removals, updates) <==> exists i :: 0 <= i < |removals| && removals[i] in updates
  {
    if HasDuplicateKey(removals, updates) {
      var k :| k in removals && k in updates;
      var i :| 0 <= i < |removals| && removals[i] == k;
      assert removals[i] in updates;
    }
  }

  /** Every namespace handler sends each error with the status its body's code names. */
  lemma ErrorStatusIsCode(h: CatalogHandler, query: Option<ListNamespacesRequest>, created: Option<CreateNamespaceRequest>,
                          namespaceParam: string, updated: Option<UpdatePropertiesRequest>)
    ensures StatusIsErrorCode(ListNamespaces(h, query).response)
    ensures StatusIsErrorCode(CreateNamespace(h, created).response)
    ensures StatusIsErrorCode(LoadNamespaceMetadata(h, namespaceParam).response)
    ensures StatusIsErrorCode(NamespaceExists(h, namespaceParam).response)
    ensures StatusIsErrorCode(DropNamespace(h, namespaceParam).response)
    ensures StatusIsErrorCode(UpdateProperties(h, namespaceParam, updated).response)
  {
  }
}
