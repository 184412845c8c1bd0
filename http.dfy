/**
 * What a handler hands back to the HTTP framework: a status and a body
 * (`c.JSON(status, body)` or `c.Status(status)` with no body), together with
 * the catalog calls it made on the way.
 */
module Http {
  import opened Models
  import opened CatalogApi
  import opened Errors

  const StatusOK := 200
  const StatusAccepted := 202
  const StatusNoContent := 204
  const StatusBadRequest := 400

  /** The JSON bodies the handlers send. */
  datatype Body =
    | NoBody
    | ErrorBody(error: ErrorModel)
    | NamespaceList(namespaces: ListNamespacesResponse)
    | CreatedNamespace(created: CreateNamespaceResponse)
    | NamespaceMetadata(metadata: LoadNamespaceMetadataResponse)
    | PropertiesSummary(summary: UpdatePropertiesResponse)
    | TableList(tables: ListTablesResponse)
    | TableMetadata(loaded: LoadTableResponse)
    | CommittedTable(committed: UpdateTableResponse)
    | KeyValue(pair: KV)

  datatype Response = Response(status: int, body: Body)

  /** One request's effect: the catalog calls made, in order, and the response sent. */
  datatype Exchange = Exchange(calls: seq<CatalogCall>, response: Response)

  /** The error response of a kind, sent with the status its record carries. */
  function Fault(k: ErrorKind): (r: Response)
    ensures r.body.ErrorBody? && r.body.error == ModelOf(k)
    ensures r.status == r.body.error.code
  {
    Response(ModelOf(k).code, ErrorBody(ModelOf(k)))
  }

  /** An error response is sent with the status its body's code names; other responses qualify trivially. */
  predicate StatusIsErrorCode(r: Response) {
    r.body.ErrorBody? ==> r.status == r.body.error.code
  }

  /** A response with a status and no body. */
  function Status(code: int): Response {
    Response(code, NoBody)
  }
}
