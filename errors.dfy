/**
 * The error taxonomy: nine constant error records, and the first-match
 * mapping from a catalog error's sentinels to one of them.
 */
module Errors {
  import opened CatalogApi

  /** The JSON error record: message, type tag and numeric code. */
  datatype ErrorModel = ErrorModel(message: string, typ: string, code: int)

  /** The nine error records, named after the variables that hold them. */
  datatype ErrorKind =
    | ErrInternalServerError
    | ErrBadRequest
    | ErrNamespaceNotFound
    | ErrNamespaceAlreadyExists
    | ErrNamespaceNotEmpty
    | ErrUnprocessableEntityDuplicateKey
    | ErrNotImplemented
    | ErrTableAlreadyExists
    | ErrTableNotFound

  /** The constant record of each kind. */
  function ModelOf(k: ErrorKind): (e: ErrorModel)
    ensures k == ErrInternalServerError ==> e.code == 500 && e.message == "Internal Server Error"
    ensures k == ErrBadRequest ==> e.code == 400
    ensures k == ErrNamespaceNotFound ==> e.code == 404 && e.typ == "NoSuchNamespaceException"
    ensures k == ErrNamespaceAlreadyExists ==> e.code == 409
    ensures k == ErrNamespaceNotEmpty ==> e.code == 409
    ensures k == ErrUnprocessableEntityDuplicateKey ==> e.code == 422
    ensures k == ErrNotImplemented ==> e.code == 501
    ensures k == ErrTableAlreadyExists ==> e.code == 409
    ensures k == ErrTableNotFound ==> e.code == 404 && e.typ == "NoSuchTableException"
    ensures e.typ == "AlreadyExistsException" <==> k == ErrNamespaceAlreadyExists || k == ErrTableAlreadyExists
  {
    match k
    case ErrInternalServerError =>
      ErrorModel("Internal Server Error", "InternalServerError", 500)
    case ErrBadRequest =>
      ErrorModel("Malformed request", "BadRequestException", 400)
    case ErrNamespaceNotFound =>
      ErrorModel("The given namespace does not exist", "NoSuchNamespaceException", 404)
    case ErrNamespaceAlreadyExists =>
      ErrorModel("The given namespace already exists", "AlreadyExistsException", 409)
    case ErrNamespaceNotEmpty =>
      ErrorModel("The given namespace is not empty", "NamespaceNotEmptyException", 409)
    case ErrUnprocessableEntityDuplicateKey =>
      ErrorModel("The request cannot be processed as there is a key present multiple times",
                 "UnprocessableEntityException", 422)
    case ErrNotImplemented =>
      ErrorModel("Not Implemented", "NotImplementedException", 501)
    case ErrTableAlreadyExists =>
      ErrorModel("The given table already exists", "AlreadyExistsException", 409)
    case ErrTableNotFound =>
      ErrorModel("The given table does not exist", "NoSuchTableException", 404)
  }

  /** Status code 404 belongs to exactly the two not-found kinds. */
  lemma NotFoundCode(k: ErrorKind)
    ensures ModelOf(k).code == 404 <==> k == ErrNamespaceNotFound || k == ErrTableNotFound
  {
  }

  /** Status code 409 belongs to exactly the two already-exists kinds and not-empty. */
  lemma ConflictCode(k: ErrorKind)
    ensures ModelOf(k).code == 409 <==>
      k == ErrNamespaceAlreadyExists || k == ErrTableAlreadyExists || k == ErrNamespaceNotEmpty
  {
  }

  /** The two not-found records share their code and are told apart by their type tags. */
  lemma NotFoundKindsDifferInType()
    ensures ModelOf(ErrNamespaceNotFound).code == ModelOf(ErrTableNotFound).code
    ensures ModelOf(ErrNamespaceNotFound).typ != ModelOf(ErrTableNotFound).typ
  {
  }

  /** The two already-exists records share type tag and code and differ only in message. */
  lemma AlreadyExistsKindsDifferInMessageOnly()
    ensures ModelOf(ErrNamespaceAlreadyExists).typ == ModelOf(ErrTableAlreadyExists).typ
    ensures ModelOf(ErrNamespaceAlreadyExists).code == ModelOf(ErrTableAlreadyExists).code
    ensures ModelOf(ErrNamespaceAlreadyExists).message != ModelOf(ErrTableAlreadyExists).message
  {
  }

  /** Not-empty shares code 409 with already-exists but has a type tag of its own. */
  lemma NotEmptyHasItsOwnType()
    ensures ModelOf(ErrNamespaceNotEmpty).code == ModelOf(ErrNamespaceAlreadyExists).code
    ensures ModelOf(ErrNamespaceNotEmpty).typ != ModelOf(ErrNamespaceAlreadyExists).typ
  {
  }

  /**
   * Reading the kind back from a record: the code decides, the type tag
   * separates the two 404s and not-empty from already-exists, and only the
   * message separates the two already-exists records.
   */
  function RecordKind(e: ErrorModel): ErrorKind {
    if e.code == 400 then ErrBadRequest
    else if e.code == 404 then
      (if e.typ == "NoSuchNamespaceException" then ErrNamespaceNotFound else ErrTableNotFound)
    else if e.code == 409 then
      (if e.typ == "NamespaceNotEmptyException" then ErrNamespaceNotEmpty
       else if e.message == "The given namespace already exists" then ErrNamespaceAlreadyExists
       else ErrTableAlreadyExists)
    else if e.code == 422 then ErrUnprocessableEntityDuplicateKey
    else if e.code == 501 then ErrNotImplemented
    else ErrInternalServerError
  }

  /** Every record reads back as its own kind. */
  lemma RecordKindOfModelOf(k: ErrorKind)
    ensures RecordKind(ModelOf(k)) == k
  {
    match k
    case ErrTableAlreadyExists =>
      assert ModelOf(k).message != "The given namespace already exists" by {
        assert ModelOf(k).message[10] == 't';
      }
    case _ =>
  }

  /** No two kinds share a record, so a body identifies its kind. */
  lemma ModelOfInjective(k1: ErrorKind, k2: ErrorKind)
    ensures ModelOf(k1) == ModelOf(k2) ==> k1 == k2
  {
    RecordKindOfModelOf(k1);
    RecordKindOfModelOf(k2);
  }

  /** One errors.Is test of a handler: the sentinel tested and the record sent when it matches. */
  datatype Rule = Rule(sentinel: Sentinel, kind: ErrorKind)

  /**
   * The handlers' error mapping: the rules are tested in order, the first
   * whose sentinel the error matches decides, and an error that matches none
   * is internal. Only the sentinels are looked at, never the error's text.
   */
  function Classify(err: CatalogError, rules: seq<Rule>): (k: ErrorKind)
    ensures (forall i :: 0 <= i < |rules| ==> rules[i].sentinel !in err.matches) ==> k == ErrInternalServerError
    ensures forall i :: 0 <= i < |rules| && rules[i].sentinel in err.matches &&
                        (forall j :: 0 <= j < i ==> rules[j].sentinel !in err.matches) ==>
                          k == rules[i].kind
    decreases |rules|
  {
    if rules == [] then ErrInternalServerError
    else if rules[0].sentinel in err.matches then rules[0].kind
    else
      var k := Classify(err, rules[1..]);
      assert forall i :: 1 <= i < |rules| ==> rules[i] == rules[1..][i - 1];
      k
  }

  /** The text of a catalog error never reaches the client. */
  lemma {:induction false} ClassifyIgnoresText(matches: set<Sentinel>, text1: string, text2: string, rules: seq<Rule>)
    ensures Classify(CatalogError(matches, text1), rules) == Classify(CatalogError(matches, text2), rules)
    decreases |rules|
  {
    if rules != [] {
      ClassifyIgnoresText(matches, text1, text2, rules[1..]);
    }
  }

  // The rule lists of the handlers, in the order the handlers test them.

  /** Namespace lookups (list, load, update properties): only namespace-not-found is recognised. */
  const NamespaceLookupRules := [Rule(NoSuchNamespace, ErrNamespaceNotFound)]

  /** Namespace creation: only already-exists is recognised. */
  const CreateNamespaceRules := [Rule(NamespaceAlreadyExists, ErrNamespaceAlreadyExists)]

  /** Namespace drop: not-found is tested before not-empty. */
  const DropNamespaceRules := [Rule(NoSuchNamespace, ErrNamespaceNotFound), Rule(NamespaceNotEmpty, ErrNamespaceNotEmpty)]

  /** Table lookups (load, commit, drop, exists, rename): namespace-not-found is tested before table-not-found. */
  const TableLookupRules := [Rule(NoSuchNamespace, ErrNamespaceNotFound), Rule(NoSuchTable, ErrTableNotFound)]

  /** Table creation: namespace-not-found is tested before table-already-exists. */
  const CreateTableRules := [Rule(NoSuchNamespace, ErrNamespaceNotFound), Rule(TableAlreadyExists, ErrTableAlreadyExists)]

  /** The two-rule precedence, stated outright: the first sentinel wins, then the second, else internal. */
  ghost predicate FirstOfTwo(err: CatalogError, s1: Sentinel, k1: ErrorKind, s2: Sentinel, k2: ErrorKind, k: ErrorKind) {
    if s1 in err.matches then k == k1
    else if s2 in err.matches then k == k2
    else k == ErrInternalServerError
  }

  lemma DropNamespacePrecedence(err: CatalogError)
    ensures FirstOfTwo(err, NoSuchNamespace, ErrNamespaceNotFound, NamespaceNotEmpty, ErrNamespaceNotEmpty,
                       Classify(err, DropNamespaceRules))
  {
    assert DropNamespaceRules[0].sentinel == NoSuchNamespace;
  }

  lemma TableLookupPrecedence(err: CatalogError)
    ensures FirstOfTwo(err, NoSuchNamespace, ErrNamespaceNotFound, NoSuchTable, ErrTableNotFound,
                       Classify(err, TableLookupRules))
  {
    assert TableLookupRules[0].sentinel == NoSuchNamespace;
  }

  lemma CreateTablePrecedence(err: CatalogError)
    ensures FirstOfTwo(err, NoSuchNamespace, ErrNamespaceNotFound, TableAlreadyExists, ErrTableAlreadyExists,
                       Classify(err, CreateTableRules))
  {
    assert CreateTableRules[0].sentinel == NoSuchNamespace;
  }
}
