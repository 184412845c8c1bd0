/**
 * The sidecar endpoints and the transaction endpoint, which turns an ordered
 * list of operation descriptors into an ordered list of catalog requests
 * (loading each table to be updated on the way) and submits them in one
 * atomic catalog call.
 */
module Transaction {
  import opened Wrappers
  import opened Models
  import opened CatalogApi
  import opened Errors
  import opened Http
  import opened Tables

  // ---------------------------------------------------------------------------
  // Sidecar endpoints

  /** Sets a sidecar key: 400 when the body does not bind, 500 on a catalog error, 202 on success. */
  function SetKVSidecar(h: CatalogHandler, body: Option<KV>): (x: Exchange)
    ensures body.None? ==> x == Exchange([], Fault(ErrBadRequest))
    ensures body.Some? ==>
              var o := h.catalog.setKVSidecar(body.value.key, body.value.value);
              x.calls == [SetKVSidecarCall(body.value.key, body.value.value)] &&
              (o.Ok? ==> x.response == Response(StatusAccepted, NoBody)) &&
              (o.Fail? ==> x.response == Fault(ErrInternalServerError))
  {
    match body
    case None => Exchange([], Fault(ErrBadRequest))
    case Some(req) =>
      var reply :=
        match h.catalog.setKVSidecar(req.key, req.value)
        case Fail(_) => Fault(ErrInternalServerError)
        case Ok(_) => Status(StatusAccepted);
      Exchange([SetKVSidecarCall(req.key, req.value)], reply)
  }

  /** Reads a sidecar key: 500 on any catalog error, else 200 with the key echoed and the catalog's value. */
  function GetKVSidecar(h: CatalogHandler, key: string): (x: Exchange)
    ensures var o := h.catalog.getKVSidecar(key);
            x.calls == [GetKVSidecarCall(key)] &&
            (o.Ok? ==> x.response == Response(StatusOK, KeyValue(KV(key, o.value)))) &&
            (o.Fail? ==> x.response == Fault(ErrInternalServerError))
  {
    var reply :=
      match h.catalog.getKVSidecar(key)
      case Fail(_) => Fault(ErrInternalServerError)
      case Ok(value) => Response(StatusOK, KeyValue(KV(key, value)));
    Exchange([GetKVSidecarCall(key)], reply)
  }
  /** Both sidecar handlers send each error with the status its body's code names. */
  lemma SidecarErrorStatusIsCode(h: CatalogHandler, body: Option<KV>, key: string)
    ensures StatusIsErrorCode(SetKVSidecar(h, body).response)
    ensures StatusIsErrorCode(GetKVSidecar(h, key).response)
  {
  }

  // ---------------------------------------------------------------------------
  // Descriptors and their requests

  /** A create-table descriptor: a creation body plus one namespace string, which is not split. */
  datatype CreateTableDescriptor = CreateTableDescriptor(request: CreateTableRequest, namespace: string)

  /** One element of the batch body; any of its three fields may be absent. */
  datatype Descriptor = Descriptor(
    createTable: Option<CreateTableDescriptor>,
    updateTable: Option<UpdateTableRequest>,
    setKVSidecar: Option<KV>)

  /** The kind of a transaction request. */
  datatype RequestKind = CreateKind | CommitKind | SidecarKind

  function KindOf(r: TransactionRequest): RequestKind {
    match r
    case CreateTableReq(_, _, _) => CreateKind
    case CommitTableReq(_, _, _) => CommitKind
    case SetKVSidecarReq(_, _) => SidecarKind
  }

  function Kinds(rs: seq<TransactionRequest>): (ks: seq<RequestKind>)
    ensures |ks| == |rs|
    ensures forall i :: 0 <= i < |rs| ==> ks[i] == KindOf(rs[i])
  {
    seq(|rs|, i requires 0 <= i < |rs| => KindOf(rs[i]))
  }

  /** Reference shape of one descriptor: a kind per present field, create first, then update, then sidecar. */
  function DescriptorShape(d: Descriptor): (ks: seq<RequestKind>)
  {
    (if d.createTable.Some? then [CreateKind] else []) +
    (if d.updateTable.Some? then [CommitKind] else []) +
    (if d.setKVSidecar.Some? then [SidecarKind] else [])
  }

  /** Reference shape of a batch: the descriptors' shapes in descriptor order. */
  function Shape(ds: seq<Descriptor>): seq<RequestKind>
    decreases |ds|
  {
    if ds == [] then [] else DescriptorShape(ds[0]) + Shape(ds[1..])
  }

  /** The number of present fields across the descriptors. */
  function FieldCount(ds: seq<Descriptor>): nat
    decreases |ds|
  {
    if ds == [] then 0
    else
      (if ds[0].createTable.Some? then 1 else 0) +
      (if ds[0].updateTable.Some? then 1 else 0) +
      (if ds[0].setKVSidecar.Some? then 1 else 0) +
      FieldCount(ds[1..])
  }

  lemma {:induction false} ShapeLength(ds: seq<Descriptor>)
    ensures |Shape(ds)| == FieldCount(ds)
    decreases |ds|
  {
    if ds != [] {
      ShapeLength(ds[1..]);
    }
  }

  /** The creation request of a descriptor: identifier `[namespace, name]`, the option list CreateTable builds; stage-create is not looked at. */
  function CreateRequestOf(c: CreateTableDescriptor): (r: TransactionRequest)
    ensures r.CreateTableReq? && |r.identifier| == 2
    ensures r.identifier[0] == c.namespace && r.identifier[1] == c.request.name
    ensures r.schema == c.request.schema && r.opts == CreateTableOptions(c.request)
  {
    CreateTableReq([c.namespace, c.request.name], c.request.schema, CreateTableOptions(c.request))
  }

  /** True when the descriptor's update-table load fails. */
  predicate LoadFails(cat: Catalog, d: Descriptor) {
    d.updateTable.Some? && cat.loadTable(TableIdent(d.updateTable.value.identifier)).Fail?
  }

  /** The creation request a descriptor contributes, if it has a create-table field. */
  function CreatedOf(d: Descriptor): seq<TransactionRequest> {
    match d.createTable
    case None => []
    case Some(c) => [CreateRequestOf(c)]
  }

  /** The sidecar request a descriptor contributes, if it has a set-sidecar field. */
  function SidecarOf(d: Descriptor): seq<TransactionRequest> {
    match d.setKVSidecar
    case None => []
    case Some(kv) => [SetKVSidecarReq(kv.key, kv.value)]
  }

  /** The table load a descriptor makes, if it has an update-table field: `namespace ++ [name]`. */
  function LoadsOf(d: Descriptor): seq<CatalogCall> {
    match d.updateTable
    case None => []
    case Some(u) => [LoadTableCall(TableIdent(u.identifier))]
  }

  /** The loads made so far and the requests built so far, or no requests once a load has failed. */
  datatype Plan = Plan(loads: seq<CatalogCall>, requests: Option<seq<TransactionRequest>>)

  /**
   * What one descriptor contributes, with the catalog answering its table
   * load; `StepOutcome` and `StepContract` state what that is.
   */
  function Step(cat: Catalog, d: Descriptor): (p: Plan)
  {
    match d.updateTable
    case None => Plan([], Some(CreatedOf(d) + SidecarOf(d)))
    case Some(u) =>
      match cat.loadTable(TableIdent(u.identifier))
      case Fail(_) => Plan(LoadsOf(d), None)
      case Ok(t) => Plan(LoadsOf(d), Some(CreatedOf(d) + [CommitTableReq(t, u.requirements, u.updates)] + SidecarOf(d)))
  }

  /** One descriptor makes exactly its own table load, and yields no requests exactly when that load fails. */
  lemma StepOutcome(cat: Catalog, d: Descriptor)
    ensures Step(cat, d).loads == LoadsOf(d)
    ensures Step(cat, d).requests.None? <==> LoadFails(cat, d)
  {
  }

  /**
   * The requests of a descriptor whose load succeeds: one per present
   * field, the creation first (identifier `[namespace, name]`), the commit
   * of the loaded table with the descriptor's requirements and updates right
   * after it, and the sidecar write last.
   */
  lemma StepContract(cat: Catalog, d: Descriptor)
    requires !LoadFails(cat, d)
    ensures var rs := Step(cat, d).requests.value;
            Kinds(rs) == DescriptorShape(d) &&
            (d.createTable.Some? ==> rs[0] == CreateRequestOf(d.createTable.value)) &&
            (d.updateTable.Some? ==>
               var u := d.updateTable.value;
               rs[|CreatedOf(d)|] ==
                 CommitTableReq(cat.loadTable(TableIdent(u.identifier)).value, u.requirements, u.updates)) &&
            (d.setKVSidecar.Some? ==>
               rs[|rs| - 1] == SetKVSidecarReq(d.setKVSidecar.value.key, d.setKVSidecar.value.value))
  {
    var rs := Step(cat, d).requests.value;
    var commits := if d.updateTable.Some? then
                     var u := d.updateTable.value;
                     [CommitTableReq(cat.loadTable(TableIdent(u.identifier)).value, u.requirements, u.updates)]
                   else [];
    assert rs == CreatedOf(d) + commits + SidecarOf(d);
    KindsAppend(CreatedOf(d), commits);
    KindsAppend(CreatedOf(d) + commits, SidecarOf(d));
  }

  lemma KindsAppend(a: seq<TransactionRequest>, b: seq<TransactionRequest>)
    ensures Kinds(a + b) == Kinds(a) + Kinds(b)
  {
  }

  /**
   * What a batch amounts to, descriptor by descriptor from the front: the
   * loads made so far and the concatenated requests, or no requests once a
   * load has failed (and no further loads after that).
   */
  function PlanOf(cat: Catalog, ds: seq<Descriptor>): Plan
    decreases |ds|
  {
    if ds == [] then Plan([], Some([]))
    else
      var p := PlanOf(cat, ds[..|ds| - 1]);
      if p.requests.None? then p
      else
        var s := Step(cat, ds[|ds| - 1]);
        Plan(p.loads + s.loads, if s.requests.None? then None else Some(p.requests.value + s.requests.value))
  }

  /** The result of appending a step's contribution to a plan that has not failed. */
  function Then(p: Plan, s: Plan): Plan
    requires p.requests.Some?
  {
    Plan(p.loads + s.loads, if s.requests.None? then None else Some(p.requests.value + s.requests.value))
  }

  /** Unfolding a non-empty batch at its last descriptor. */
  lemma PlanLast(cat: Catalog, ds: seq<Descriptor>)
    requires |ds| >= 1
    ensures PlanOf(cat, ds[..|ds| - 1]).requests.None? ==> PlanOf(cat, ds) == PlanOf(cat, ds[..|ds| - 1])
    ensures PlanOf(cat, ds[..|ds| - 1]).requests.Some? ==>
              PlanOf(cat, ds) == Then(PlanOf(cat, ds[..|ds| - 1]), Step(cat, ds[|ds| - 1]))
  {
  }

  /** Extending a prefix of a batch by its next descriptor. */
  lemma PlanAdvance(cat: Catalog, ds: seq<Descriptor>, i: nat)
    requires i < |ds|
    ensures PlanOf(cat, ds[..i]).requests.None? ==> PlanOf(cat, ds[..i + 1]) == PlanOf(cat, ds[..i])
    ensures PlanOf(cat, ds[..i]).requests.Some? ==>
              PlanOf(cat, ds[..i + 1]) == Then(PlanOf(cat, ds[..i]), Step(cat, ds[i]))
  {
    assert ds[..i + 1][..i] == ds[..i];
    assert ds[..i + 1][i] == ds[i];
  }

  /** The table loads of every update-table field of a batch, in order. */
  function AllLoads(ds: seq<Descriptor>): seq<CatalogCall>
    decreases |ds|
  {
    if ds == [] then [] else AllLoads(ds[..|ds| - 1]) + LoadsOf(ds[|ds| - 1])
  }

  /**
   * A batch makes at most one table load per descriptor, and when no load
   * fails it makes exactly the loads of its update-table fields, in order.
   */
  lemma {:induction false} PlanLoads(cat: Catalog, ds: seq<Descriptor>)
    ensures |PlanOf(cat, ds).loads| <= |ds|
    ensures PlanOf(cat, ds).requests.Some? ==> PlanOf(cat, ds).loads == AllLoads(ds)
    decreases |ds|
  {
    if ds != [] {
      PlanLoads(cat, ds[..|ds| - 1]);
      PlanLast(cat, ds);
      StepOutcome(cat, ds[|ds| - 1]);
    }
  }

  /** Once a load has failed, later descriptors change nothing: no more loads, still no requests. */
  lemma {:induction false} PlanStopsAtFailure(cat: Catalog, ds: seq<Descriptor>, k: nat)
    requires k <= |ds|
    requires PlanOf(cat, ds[..k]).requests.None?
    ensures PlanOf(cat, ds) == PlanOf(cat, ds[..k])
    decreases |ds| - k
  {
    if k < |ds| {
      var front := ds[..|ds| - 1];
      assert front[..k] == ds[..k];
      PlanStopsAtFailure(cat, front, k);
    } else {
      assert ds[..k] == ds;
    }
  }

  /** A batch fails exactly when some update-table descriptor's load fails. */
  lemma {:induction false} PlanFailsIffSomeLoadFails(cat: Catalog, ds: seq<Descriptor>)
    ensures PlanOf(cat, ds).requests.None? <==> exists i :: 0 <= i < |ds| && LoadFails(cat, ds[i])
    decreases |ds|
  {
    if ds != [] {
      var front := ds[..|ds| - 1];
      var last := ds[|ds| - 1];
      assert ds == front + [last];
      PlanFailsIffSomeLoadFails(cat, front);
      PlanLast(cat, ds);
      assert Step(cat, last).requests.None? <==> LoadFails(cat, last);
      if PlanOf(cat, front).requests.None? {
        var i :| 0 <= i < |front| && LoadFails(cat, front[i]);
        assert ds[i] == front[i];
      } else if !LoadFails(cat, last) {
        forall i | 0 <= i < |ds|
          ensures !LoadFails(cat, ds[i])
        {
          if i < |front| {
            assert ds[i] == front[i];
          }
        }
      }
    }
  }

  lemma {:induction false} ShapeSnoc(ds: seq<Descriptor>, d: Descriptor)
    ensures Shape(ds + [d]) == Shape(ds) + DescriptorShape(d)
    decreases |ds|
  {
    if ds == [] {
      assert [d][1..] == [];
      assert [] + [d] == [d];
    } else {
      var e := ds + [d];
      assert e[0] == ds[0];
      assert e[1..] == ds[1..] + [d];
      ShapeSnoc(ds[1..], d);
      calc {
        Shape(e);
        DescriptorShape(ds[0]) + Shape(ds[1..] + [d]);
        DescriptorShape(ds[0]) + (Shape(ds[1..]) + DescriptorShape(d));
        (DescriptorShape(ds[0]) + Shape(ds[1..])) + DescriptorShape(d);
      }
    }
  }

  /**
   * Order is preserved and nothing is dropped or added: when a batch
   * succeeds, the kinds of its requests are the descriptors' shapes in
   * order, so there is one request per present field.
   */
  lemma {:induction false} PlanFollowsShape(cat: Catalog, ds: seq<Descriptor>)
    requires PlanOf(cat, ds).requests.Some?
    ensures Kinds(PlanOf(cat, ds).requests.value) == Shape(ds)
    ensures |PlanOf(cat, ds).requests.value| == FieldCount(ds)
    decreases |ds|
  {
    ShapeLength(ds);
    if ds != [] {
      var front := ds[..|ds| - 1];
      var last := ds[|ds| - 1];
      assert ds == front + [last];
      PlanLast(cat, ds);
      assert PlanOf(cat, front).requests.Some?;
      PlanFollowsShape(cat, front);
      StepContract(cat, last);
      ShapeSnoc(front, last);
      KindsAppend(PlanOf(cat, front).requests.value, Step(cat, last).requests.value);
    }
  }

  lemma ThenAssociative(p: Plan, q: Plan, r: Plan)
    requires p.requests.Some? && q.requests.Some?
    ensures Then(Then(p, q), r) == Then(p, Then(q, r))
  {
    assert (p.loads + q.loads) + r.loads == p.loads + (q.loads + r.loads);
    if r.requests.Some? {
      assert (p.requests.value + q.requests.value) + r.requests.value ==
             p.requests.value + (q.requests.value + r.requests.value);
    }
  }

  lemma PlanConcatEmpty(cat: Catalog, a: seq<Descriptor>)
    requires PlanOf(cat, a).requests.Some?
    ensures Then(PlanOf(cat, a), PlanOf(cat, [])) == PlanOf(cat, a)
  {
    var p := PlanOf(cat, a);
    assert p.requests.value + [] == p.requests.value;
    assert p.loads + [] == p.loads;
  }

  /**
   * Splitting a batch anywhere after a first half that succeeds: the loads
   * of the whole are those of the first half followed by those of the
   * second, and so are the requests; when the second half has a failed
   * load, the whole has no requests.
   */
  lemma {:induction false} PlanConcat(cat: Catalog, a: seq<Descriptor>, b: seq<Descriptor>)
    requires PlanOf(cat, a).requests.Some?
    ensures PlanOf(cat, a + b) == Then(PlanOf(cat, a), PlanOf(cat, b))
    decreases |b|
  {
    if b == [] {
      PlanConcatEmpty(cat, a);
      assert a + b == a;
    } else {
      PlanConcat(cat, a, b[..|b| - 1]);
      if PlanOf(cat, b[..|b| - 1]).requests.Some? {
        PlanConcatStep(cat, a, b);
      } else {
        PlanConcatStepFailed(cat, a, b);
      }
    }
  }

  /** The inductive step of the split: from the batch without its last descriptor to the whole batch. */
  lemma PlanConcatStep(cat: Catalog, a: seq<Descriptor>, b: seq<Descriptor>)
    requires |b| >= 1
    requires PlanOf(cat, a).requests.Some? && PlanOf(cat, b[..|b| - 1]).requests.Some?
    requires PlanOf(cat, a + b[..|b| - 1]) == Then(PlanOf(cat, a), PlanOf(cat, b[..|b| - 1]))
    ensures PlanOf(cat, a + b) == Then(PlanOf(cat, a), PlanOf(cat, b))
  {
    var front, last := b[..|b| - 1], b[|b| - 1];
    PlanLast(cat, b);
    var ab := a + b;
    assert ab[..|ab| - 1] == a + front;
    assert ab[|ab| - 1] == last;
    PlanLast(cat, ab);
    ThenAssociative(PlanOf(cat, a), PlanOf(cat, front), Step(cat, last));
  }

  /** The same step once the second half has already failed before its last descriptor. */
  lemma PlanConcatStepFailed(cat: Catalog, a: seq<Descriptor>, b: seq<Descriptor>)
    requires |b| >= 1
    requires PlanOf(cat, a).requests.Some? && PlanOf(cat, b[..|b| - 1]).requests.None?
    requires PlanOf(cat, a + b[..|b| - 1]) == Then(PlanOf(cat, a), PlanOf(cat, b[..|b| - 1]))
    ensures PlanOf(cat, a + b) == Then(PlanOf(cat, a), PlanOf(cat, b))
  {
    PlanLast(cat, b);
    var ab := a + b;
    assert ab[..|ab| - 1] == a + b[..|b| - 1];
    PlanLast(cat, ab);
  }

  /**
   * POST of a transaction batch: a malformed body is 400 and the catalog is
   * not called; a failed load is 500 and the transaction is never
   * submitted; otherwise the whole request list goes to one transaction call
   * with the handler's followers, and any error there is 500, success 200.
   */
  method Transaction(h: CatalogHandler, body: Option<seq<Descriptor>>) returns (x: Exchange)
    ensures StatusIsErrorCode(x.response)
    ensures body.None? ==> x == Exchange([], Fault(ErrBadRequest))
    ensures body.Some? ==>
              var p := PlanOf(h.catalog, body.value);
              (p.requests.None? ==> x == Exchange(p.loads, Fault(ErrInternalServerError))) &&
              (p.requests.Some? ==>
                 var o := h.catalog.transaction(p.requests.value, h.followers);
                 x.calls == p.loads + [TransactionCall(p.requests.value, h.followers)] &&
                 (o.Ok? ==> x.response == Response(StatusOK, NoBody)) &&
                 (o.Fail? ==> x.response == Fault(ErrInternalServerError)))
  {
    if body.None? {
      return Exchange([], Fault(ErrBadRequest));
    }
    var ds := body.value;
    var reqs: seq<TransactionRequest> := [];
    var calls: seq<CatalogCall> := [];
    for i := 0 to |ds|
      invariant PlanOf(h.catalog, ds[..i]) == Plan(calls, Some(reqs))
    {
      var r := ds[i];
      ghost var before, loadsBefore := reqs, calls;
      PlanAdvance(h.catalog, ds, i);
      if r.createTable.Some? {
        var c := r.createTable.value;
        reqs := reqs + [CreateTableReq([c.namespace, c.request.name], c.request.schema, CreateTableOptions(c.request))];
      }
      assert reqs == before + CreatedOf(r);
      if r.updateTable.Some? {
        var u := r.updateTable.value;
        var ident := u.identifier.namespace + [u.identifier.name];
        calls := calls + [LoadTableCall(ident)];
        var loaded := h.catalog.loadTable(ident);
        if loaded.Fail? {
          assert Step(h.catalog, r) == Plan(LoadsOf(r), None);
          PlanStopsAtFailure(h.catalog, ds, i + 1);
          return Exchange(calls, Fault(ErrInternalServerError));
        }
        reqs := reqs + [CommitTableReq(loaded.value, u.requirements, u.updates)];
        assert Step(h.catalog, r) ==
               Plan(LoadsOf(r), Some(CreatedOf(r) + [CommitTableReq(loaded.value, u.requirements, u.updates)] + SidecarOf(r)));
      }
      if r.setKVSidecar.Some? {
        var kv := r.setKVSidecar.value;
        reqs := reqs + [SetKVSidecarReq(kv.key, kv.value)];
      }
      assert calls == loadsBefore + Step(h.catalog, r).loads;
      assert reqs == before + Step(h.catalog, r).requests.value;
    }
    assert ds[..|ds|] == ds;
    var reply :=
      match h.catalog.transaction(reqs, h.followers)
      case Fail(_) => Fault(ErrInternalServerError)
      case Ok(_) => Status(StatusOK);
    x := Exchange(calls + [TransactionCall(reqs, h.followers)], reply);
  }
}
