/**
 * The wire shapes of the REST handlers and the identifier codec: a namespace
 * travels in one URL path segment with its levels joined by the unit
 * separator 0x1F, and a table identifier is a namespace plus a trailing name.
 */
module Models {
  import opened Wrappers

  /** The reserved separator between namespace levels (ASCII unit separator). */
  const Separator: char := '\U{1F}'

  type Namespace = seq<string>
  type Properties = map<string, string>

  /** True when the separator occurs nowhere in `s`. */
  predicate SeparatorFree(s: string) {
    Separator !in s
  }

  /** True when no component of `parts` contains the separator. */
  predicate ComponentsSeparatorFree(parts: seq<string>) {
    forall i :: 0 <= i < |parts| ==> SeparatorFree(parts[i])
  }

  /**
   * Go's strings.Split with the one-character separator: the text between
   * consecutive separators, in order. Splitting never yields an empty
   * sequence, and its pieces never contain the separator.
   */
  function Split(s: string): (parts: seq<string>)
    ensures |parts| >= 1
    ensures ComponentsSeparatorFree(parts)
    decreases |s|
  {
    if s == [] then [[]]
    else
      var rest := Split(s[1..]);
      if s[0] == Separator then [[]] + rest
      else [[s[0]] + rest[0]] + rest[1..]
  }

  /** Go's strings.Join with the separator: components with one separator between neighbours. */
  function Join(parts: seq<string>): string
  {
    if |parts| == 0 then []
    else if |parts| == 1 then parts[0]
    else parts[0] + [Separator] + Join(parts[1..])
  }

  /** Joining a component in front of a non-empty list puts one separator after it. */
  lemma {:induction false} JoinCons(p: string, rest: seq<string>)
    requires |rest| >= 1
    ensures Join([p] + rest) == p + [Separator] + Join(rest)
  {
    assert ([p] + rest)[1..] == rest;
  }

  /** Extending the first component by one character extends the joined text by it. */
  lemma {:induction false} JoinGlue(c: char, rest: seq<string>)
    requires |rest| >= 1
    ensures Join([[c] + rest[0]] + rest[1..]) == [c] + Join(rest)
  {
    var first: string := [c] + rest[0];
    var others := rest[1..];
    if |rest| == 1 {
      assert [first] + others == [first];
    } else {
      var j := Join(others);
      JoinCons(first, others);
      assert rest == [rest[0]] + others;
      JoinCons(rest[0], others);
      assert first + [Separator] + j == [c] + (rest[0] + [Separator] + j);
    }
  }

  /** Splitting then joining gives back the segment text, whatever it is. */
  lemma {:induction false} JoinSplit(s: string)
    ensures Join(Split(s)) == s
    decreases |s|
  {
    if s != [] {
      var rest := Split(s[1..]);
      JoinSplit(s[1..]);
      if s[0] == Separator {
        JoinCons([], rest);
      } else {
        JoinGlue(s[0], rest);
      }
      assert s == [s[0]] + s[1..];
    }
  }

  /** A separator-free prefix glues onto the first piece of whatever follows it. */
  lemma {:induction false} SplitSeparatorFreePrefix(w: string, t: string)
    requires SeparatorFree(w)
    ensures Split(w + t) == [w + Split(t)[0]] + Split(t)[1..]
    decreases |w|
  {
    if w != [] {
      var u := w + t;
      assert u[0] == w[0] && u[0] != Separator;
      assert u[1..] == w[1..] + t;
      SplitSeparatorFreePrefix(w[1..], t);
      var r := Split(u[1..]);
      assert r == [w[1..] + Split(t)[0]] + Split(t)[1..];
      assert Split(u) == [[u[0]] + r[0]] + r[1..];
      assert [w[0]] + (w[1..] + Split(t)[0]) == w + Split(t)[0];
    } else {
      assert w + t == t;
      assert w + Split(t)[0] == Split(t)[0];
      assert Split(t) == [Split(t)[0]] + Split(t)[1..];
    }
  }

  /**
   * Joining then splitting gives back the components, provided there is at
   * least one and none of them contains the separator (no escaping is done).
   */
  lemma {:induction false} SplitJoin(parts: seq<string>)
    requires |parts| >= 1
    requires ComponentsSeparatorFree(parts)
    ensures Split(Join(parts)) == parts
    decreases |parts|
  {
    assert SeparatorFree(parts[0]);
    if |parts| == 1 {
      SplitSeparatorFreePrefix(parts[0], []);
      assert parts[0] + [] == parts[0];
    } else {
      var tail := Join(parts[1..]);
      SplitJoin(parts[1..]);
      assert Join(parts) == parts[0] + ([Separator] + tail);
      SplitSeparatorFreePrefix(parts[0], [Separator] + tail);
      assert ([Separator] + tail)[1..] == tail;
      assert Split([Separator] + tail) == [[]] + parts[1..];
      assert parts[0] + [] == parts[0];
      assert parts == [parts[0]] + parts[1..];
    }
  }

  /** An empty path segment decodes to one empty component, not to the empty namespace. */
  lemma EmptySegmentIsOneEmptyComponent()
    ensures Split("") == [""]
    ensures Split("") != []
  {
  }

  /** The number of separators in a segment. */
  function SeparatorCount(s: string): nat
    decreases |s|
  {
    if s == [] then 0 else (if s[0] == Separator then 1 else 0) + SeparatorCount(s[1..])
  }

  /** The separators across all components of a namespace. */
  function ComponentSeparators(parts: seq<string>): nat
    decreases |parts|
  {
    if parts == [] then 0 else SeparatorCount(parts[0]) + ComponentSeparators(parts[1..])
  }

  /** Splitting yields one more piece than the segment has separators. */
  lemma {:induction false} SplitLength(s: string)
    ensures |Split(s)| == SeparatorCount(s) + 1
    decreases |s|
  {
    if s != [] {
      SplitLength(s[1..]);
    }
  }

  lemma {:induction false} SeparatorCountAppend(s: string, t: string)
    ensures SeparatorCount(s + t) == SeparatorCount(s) + SeparatorCount(t)
    decreases |s|
  {
    if s == [] {
      assert s + t == t;
    } else {
      assert (s + t)[0] == s[0];
      assert (s + t)[1..] == s[1..] + t;
      SeparatorCountAppend(s[1..], t);
    }
  }

  /** A segment contains the separator exactly when it counts at least one. */
  lemma {:induction false} SeparatorCountPositive(s: string)
    ensures Separator in s <==> SeparatorCount(s) > 0
    decreases |s|
  {
    if s != [] {
      SeparatorCountPositive(s[1..]);
      assert s == [s[0]] + s[1..];
    }
  }

  /** Joining adds one separator between each pair of neighbours. */
  lemma {:induction false} JoinSeparatorCount(parts: seq<string>)
    requires |parts| >= 1
    ensures SeparatorCount(Join(parts)) == ComponentSeparators(parts) + |parts| - 1
    decreases |parts|
  {
    if |parts| == 1 {
      assert parts[1..] == [];
    } else {
      JoinSeparatorCount(parts[1..]);
      JoinCons(parts[0], parts[1..]);
      assert [parts[0]] + parts[1..] == parts;
      SeparatorCountAppend(parts[0], [Separator]);
      SeparatorCountAppend(parts[0] + [Separator], Join(parts[1..]));
      assert SeparatorCount([Separator]) == 1 by {
        assert [Separator][1..] == [];
      }
    }
  }

  /** A component's separators are among the namespace's separators. */
  lemma {:induction false} ComponentSeparatorsBound(parts: seq<string>, i: nat)
    requires i < |parts|
    ensures SeparatorCount(parts[i]) <= ComponentSeparators(parts)
    decreases |parts|
  {
    if i > 0 {
      ComponentSeparatorsBound(parts[1..], i - 1);
    }
  }

  /**
   * No escaping is done: when some component contains the separator, the
   * round trip comes back with more components than went in, so it never
   * gives the components back.
   */
  lemma SeparatorBreaksRoundTrip(parts: seq<string>)
    requires !ComponentsSeparatorFree(parts)
    ensures |Split(Join(parts))| > |parts|
    ensures Split(Join(parts)) != parts
  {
    var i :| 0 <= i < |parts| && !SeparatorFree(parts[i]);
    SeparatorCountPositive(parts[i]);
    ComponentSeparatorsBound(parts, i);
    JoinSeparatorCount(parts);
    SplitLength(Join(parts));
  }

  /** The empty namespace joins to the empty segment, which splits to one empty component. */
  lemma EmptyNamespaceDoesNotRoundTrip()
    ensures Split(Join([])) == [""]
  {
  }

  /** A table identifier as it travels in request bodies: the namespace and the table's name. */
  datatype Identifier = Identifier(namespace: Namespace, name: string)

  /** `append(id.Namespace, id.Name)`: the flat identifier handed to the catalog. */
  function TableIdent(id: Identifier): (t: seq<string>)
    ensures |t| == |id.namespace| + 1
    ensures t[..|t| - 1] == id.namespace && t[|t| - 1] == id.name
  {
    id.namespace + [id.name]
  }

  /** The identifier built from a non-empty flat identifier: all but the last component, and the last. */
  function IdentifierOf(t: seq<string>): (id: Identifier)
    requires |t| >= 1
    ensures TableIdent(id) == t
  {
    Identifier(t[..|t| - 1], t[|t| - 1])
  }

  /** Splitting a flat identifier and appending the name back loses nothing, in both directions. */
  lemma IdentifierRoundTrip(id: Identifier)
    ensures IdentifierOf(TableIdent(id)) == id
  {
  }

  // Opaque iceberg payloads: this layer passes them along without looking inside.
  datatype Schema = Schema(json: string)
  datatype PartitionSpec = PartitionSpec(json: string)
  datatype SortOrder = SortOrder(json: string)
  datatype Requirement = Requirement(json: string)
  datatype Update = Update(json: string)
  datatype Metadata = Metadata(json: string)

  /** Query of GET /v1/namespaces; the page token and page size are bound but never used. */
  datatype ListNamespacesRequest = ListNamespacesRequest(
    parent: Option<string>,
    pageToken: Option<string>,
    pageSize: Option<int>)

  datatype ListNamespacesResponse = ListNamespacesResponse(
    namespaces: seq<Namespace>,
    nextPageToken: Option<string>)

  datatype CreateNamespaceRequest = CreateNamespaceRequest(namespace: Namespace, properties: Properties)

  /** The create response is the request type itself, so a successful create can only echo it. */
  type CreateNamespaceResponse = CreateNamespaceRequest

  datatype LoadNamespaceMetadataResponse = LoadNamespaceMetadataResponse(
    namespace: Namespace,
    properties: Properties)

  datatype UpdatePropertiesRequest = UpdatePropertiesRequest(removals: seq<string>, updates: Properties)

  /** Exactly three key lists: the keys updated, the keys removed and the removal keys that were absent. */
  datatype UpdatePropertiesResponse = UpdatePropertiesResponse(
    updated: seq<string>,
    removed: seq<string>,
    missing: seq<string>)

  datatype ListTablesResponse = ListTablesResponse(
    identifiers: seq<Identifier>,
    nextPageToken: Option<string>)

  /**
   * Body of a table creation. A nil pointer or nil map is `None`; the location
   * is a plain string whose empty value means "not given"; `stageCreate` is a
   * plain boolean that is false unless the body says `true`.
   */
  datatype CreateTableRequest = CreateTableRequest(
    name: string,
    schema: Option<Schema>,
    location: string,
    partitionSpec: Option<PartitionSpec>,
    writeOrder: Option<SortOrder>,
    stageCreate: bool,
    props: Option<Properties>)

  datatype LoadTableResponse = LoadTableResponse(
    metadataLoc: string,
    metadata: string,
    config: Properties)

  datatype UpdateTableRequest = UpdateTableRequest(
    identifier: Identifier,
    requirements: seq<Requirement>,
    updates: seq<Update>)

  datatype UpdateTableResponse = UpdateTableResponse(metadataLoc: string, metadata: string)

  datatype RenameTableRequest = RenameTableRequest(source: Identifier, destination: Identifier)

  /** The key/value pair of the sidecar endpoints. */
  datatype KV = KV(key: string, value: string)
}
