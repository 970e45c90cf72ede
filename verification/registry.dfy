/** The server's procedure routes as one state machine over the store:
    each request is a step that yields the next store and the response. */
module Registry {
  import opened Wrappers
  import opened Values
  import opened Procedures
  import opened Invocation

  /** The requests the core answers. A create carries the id and timestamp
      the server generates for it. */
  datatype Request =
    | ListAll
    | GetOne(id: string)
    | CreateOne(fields: CreateFields, newId: string, createdAt: string)
    | UpdateOne(id: string, body: UpdateFields)
    | DeleteOne(id: string)
    | InvokeOne(id: string, args: Option<Args>)

  datatype Response =
    | Listed(items: seq<Procedure>)
    | Found(item: Procedure)
    | Created(item: Procedure)
    | Updated(item: Procedure)
    | NoContent
    | Invoked(result: InvocationResult)
    | StoreRefused(storeError: StoreError)
    | InvokeRefused(invokeError: InvokeError)

  /** Answers one request. Reads and invocations leave the store alone; a
      refused request changes nothing; a delete always succeeds. */
  function Apply(s: Store, req: Request, exec: (string, Args) -> ExecOutcome): (r: (Store, Response))
    ensures req.ListAll? || req.GetOne? || req.InvokeOne? ==> r.0 == s
    ensures r.1.StoreRefused? || r.1.InvokeRefused? ==> r.0 == s
    ensures req.ListAll? ==> r.1 == Listed(s)
    ensures req.DeleteOne? ==> r.1 == NoContent
    ensures DistinctIds(s) ==> DistinctIds(r.0)
  {
    match req
    case ListAll => (s, Listed(s))
    case GetOne(id) =>
      (match Get(s, id)
       case Success(p) => (s, Found(p))
       case Failure(e) => (s, StoreRefused(e)))
    case CreateOne(fields, newId, createdAt) =>
      (match Create(s, fields, newId, createdAt)
       case Success((s', p)) => (s', Created(p))
       case Failure(e) => (s, StoreRefused(e)))
    case UpdateOne(id, body) =>
      (match Update(s, id, body)
       case Success((s', p)) => (s', Updated(p))
       case Failure(e) => (s, StoreRefused(e)))
    case DeleteOne(id) =>
      (Delete(s, id), NoContent)
    case InvokeOne(id, args) =>
      (match Invoke(s, id, args, exec)
       case Success(result) => (s, Invoked(result))
       case Failure(e) => (s, InvokeRefused(e)))
  }

  /** The store after a sequence of requests, starting from `s`. */
  function Run(s: Store, reqs: seq<Request>, exec: (string, Args) -> ExecOutcome): Store
    decreases |reqs|
  {
    if |reqs| == 0 then s else Run(Apply(s, reqs[0], exec).0, reqs[1..], exec)
  }

  /** Running two sequences of requests one after the other is running
      their concatenation. */
  lemma {:induction false} RunAppend(s: Store, r1: seq<Request>, r2: seq<Request>, exec: (string, Args) -> ExecOutcome)
    ensures Run(s, r1 + r2, exec) == Run(Run(s, r1, exec), r2, exec)
    decreases |r1|
  {
    if |r1| == 0 {
      assert r1 + r2 == r2;
    } else {
      assert (r1 + r2)[0] == r1[0];
      assert (r1 + r2)[1..] == r1[1..] + r2;
      RunAppend(Apply(s, r1[0], exec).0, r1[1..], r2, exec);
    }
  }

  /** No sequence of requests can make two records share an id. */
  lemma {:induction false} RunKeepsDistinctIds(s: Store, reqs: seq<Request>, exec: (string, Args) -> ExecOutcome)
    requires DistinctIds(s)
    ensures DistinctIds(Run(s, reqs, exec))
    decreases |reqs|
  {
    if |reqs| > 0 {
      RunKeepsDistinctIds(Apply(s, reqs[0], exec).0, reqs[1..], exec);
    }
  }

  /** Record `a` is listed before record `b`. */
  predicate Precedes(s: Store, a: string, b: string) {
    Stored(s, a) && Stored(s, b) && Find(s, a).value < Find(s, b).value
  }

  /** A request that is not a create of `a` cannot bring `a` into the store. */
  predicate NotCreating(req: Request, a: string) {
    !(req.CreateOne? && req.newId == a)
  }

  /** One step keeps two surviving records in their relative order, and
      brings back neither of them unless it creates it. */
  lemma StepKeepsOrder(s: Store, req: Request, exec: (string, Args) -> ExecOutcome, a: string, b: string)
    requires DistinctIds(s) && NotCreating(req, a) && NotCreating(req, b)
    ensures var s' := Apply(s, req, exec).0; Stored(s', a) ==> Stored(s, a)
    ensures var s' := Apply(s, req, exec).0; Stored(s', b) ==> Stored(s, b)
    ensures var s' := Apply(s, req, exec).0;
      Stored(s', a) && Stored(s', b) ==> (Precedes(s, a, b) <==> Precedes(s', a, b))
  {
    var s' := Apply(s, req, exec).0;
    match req {
      case CreateOne(fields, newId, createdAt) =>
        var r := Create(s, fields, newId, createdAt);
        if r.Success? {
          var p := r.value.1;
          assert s' == Put(s, p);
          StoredAfterPut(s, p, a);
          StoredAfterPut(s, p, b);
          if Stored(s, a) { FindAfterPut(s, p, a); }
          if Stored(s, b) { FindAfterPut(s, p, b); }
        }
      case UpdateOne(id, body) =>
        var r := Update(s, id, body);
        if r.Success? {
          var p := Merge(s[Find(s, id).value], body);
          assert s' == Put(s, p);
          StoredAfterPut(s, p, a);
          StoredAfterPut(s, p, b);
          if Stored(s, a) { FindAfterPut(s, p, a); }
          if Stored(s, b) { FindAfterPut(s, p, b); }
        }
      case DeleteOne(id) =>
        assert s' == Remove(s, id);
        if Stored(s', a) { StoredAfterRemove(s, id, a); }
        if Stored(s', b) { StoredAfterRemove(s, id, b); }
        if Stored(s', a) && Stored(s', b) {
          RemovePreservesOrder(s, id, a, b);
        }
      case _ =>
    }
  }

  /** Deleting a third record keeps two others in their relative order. */
  lemma RemovePreservesOrder(s: Store, x: string, a: string, b: string)
    requires Stored(s, a) && Stored(s, b) && a != x && b != x
    ensures Precedes(s, a, b) <==> Precedes(Remove(s, x), a, b)
  {
    FindAfterRemove(s, x, a);
    FindAfterRemove(s, x, b);
  }

  /** `list` keeps creation order: across any sequence of creates, updates,
      deletes, reads and invocations, two records present at the end that
      were present at the start (and were not created again) are listed in
      the order they had. */
  lemma {:induction false} RunKeepsOrder(s: Store, reqs: seq<Request>, exec: (string, Args) -> ExecOutcome, a: string, b: string)
    requires DistinctIds(s)
    requires forall i :: 0 <= i < |reqs| ==> NotCreating(reqs[i], a) && NotCreating(reqs[i], b)
    requires Stored(Run(s, reqs, exec), a) && Stored(Run(s, reqs, exec), b)
    ensures Stored(s, a) && Stored(s, b)
    ensures Precedes(s, a, b) <==> Precedes(Run(s, reqs, exec), a, b)
    decreases |reqs|
  {
    if |reqs| > 0 {
      var s1 := Apply(s, reqs[0], exec).0;
      assert forall i :: 0 <= i < |reqs[1..]| ==> reqs[1..][i] == reqs[i + 1];
      RunKeepsOrder(s1, reqs[1..], exec, a, b);
      StepKeepsOrder(s, reqs[0], exec, a, b);
    }
  }

  /** One create with a fresh id lists its record after every other
      record of the resulting store. */
  lemma FreshCreateListedLast(s: Store, f: CreateFields, b: string, createdAt: string,
    exec: (string, Args) -> ExecOutcome, a: string)
    requires !Stored(s, b) && a != b
    requires Stored(Apply(s, CreateOne(f, b, createdAt), exec).0, a)
    requires Stored(Apply(s, CreateOne(f, b, createdAt), exec).0, b)
    ensures Precedes(Apply(s, CreateOne(f, b, createdAt), exec).0, a, b)
  {
    var s' := Apply(s, CreateOne(f, b, createdAt), exec).0;
    var r := Create(s, f, b, createdAt);
    if r.Success? {
      assert s' == s + [r.value.1];
      forall j | 0 <= j < |s| ensures s'[j].id != b {
        assert s'[j] == s[j];
      }
      FindIs(s', b, |s|);
    }
  }

  /** A create with a fresh id puts its record after every record already
      in the store: when `b` is created with an id not yet stored, every
      other record `a` that is listed at the end of the run, with neither
      `a` nor `b` created again later, is listed before `b`. This holds
      whether `a` was there from the start or was created earlier in the
      run. */
  lemma CreatedLaterListedLater(
    s: Store, before: seq<Request>, f: CreateFields, b: string, createdAt: string, after: seq<Request>,
    exec: (string, Args) -> ExecOutcome, a: string)
    requires DistinctIds(s) && a != b
    requires !Stored(Run(s, before, exec), b)
    requires forall i :: 0 <= i < |after| ==> NotCreating(after[i], a) && NotCreating(after[i], b)
    requires Stored(Run(s, before + [CreateOne(f, b, createdAt)] + after, exec), a)
    requires Stored(Run(s, before + [CreateOne(f, b, createdAt)] + after, exec), b)
    ensures Precedes(Run(s, before + [CreateOne(f, b, createdAt)] + after, exec), a, b)
  {
    var create := CreateOne(f, b, createdAt);
    var s2 := Run(s, before, exec);
    var s3 := Apply(s2, create, exec).0;
    assert Run(s, before + [create] + after, exec) == Run(s3, after, exec) by {
      RunAppend(s, before + [create], after, exec);
      RunAppend(s, before, [create], exec);
      assert [create][1..] == [];
    }
    RunKeepsDistinctIds(s, before, exec);
    RunKeepsOrder(s3, after, exec, a, b);
    FreshCreateListedLast(s2, f, b, createdAt, exec, a);
  }
}
