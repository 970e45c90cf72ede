/** The in-memory procedure store of the server and the decisions its CRUD
    handlers make: mandatory fields and defaults on create, a shallow merge
    that keeps the id on update, and an idempotent delete. */
module Procedures {
  import opened Wrappers

  /** One declared parameter. `typeName` is the declared type tag as text,
      the empty text when none was given. */
  datatype ParamSpec = ParamSpec(name: string, typeName: string, required: bool)

  /** No two declared parameters share a name. */
  predicate DistinctNames(params: seq<ParamSpec>) {
    forall i, j :: 0 <= i < j < |params| ==> params[i].name != params[j].name
  }

  /** A stored procedure record; `httpMethod` is the record's `method` field. */
  datatype Procedure = Procedure(
    id: string,
    name: string,
    framework: string,
    protocol: string,
    httpMethod: string,
    params: seq<ParamSpec>,
    implementation: string,
    description: string,
    createdAt: string)

  /** The body of a create request. An absent field is `None`; `params` is
      also `None` when the body holds something that is not an array. */
  datatype CreateFields = CreateFields(
    name: Option<string>,
    framework: Option<string>,
    protocol: Option<string>,
    httpMethod: Option<string>,
    params: Option<seq<ParamSpec>>,
    implementation: Option<string>,
    description: Option<string>)

  /** The body of an update request: every field of a record may be present. */
  datatype UpdateFields = UpdateFields(
    id: Option<string>,
    name: Option<string>,
    framework: Option<string>,
    protocol: Option<string>,
    httpMethod: Option<string>,
    params: Option<seq<ParamSpec>>,
    implementation: Option<string>,
    description: Option<string>,
    createdAt: Option<string>)

  datatype StoreError = NotFound(id: string) | MissingMandatoryFields

  /** The snippet a record gets when it is created without one. */
  const DefaultImplementation: string := "return { ok: true };"

  /** The store: a `Map` from id to record, kept here as its entries in
      insertion order. */
  type Store = seq<Procedure>

  /** JavaScript truthiness of an optional text field. */
  predicate Truthy(field: Option<string>) {
    field.Some? && field.value != ""
  }

  /** The store invariant: no two entries share an id. */
  predicate DistinctIds(s: Store) {
    forall i, j :: 0 <= i < j < |s| ==> s[i].id != s[j].id
  }

  /** The position of the first entry with the given id. */
  function Find(s: Store, id: string): (r: Option<nat>)
    ensures r.Some? ==> r.value < |s| && s[r.value].id == id
    ensures r.Some? ==> forall j :: 0 <= j < r.value ==> s[j].id != id
    ensures r.None? ==> forall j :: 0 <= j < |s| ==> s[j].id != id
  {
    if |s| == 0 then None
    else if s[0].id == id then Some(0)
    else match Find(s[1..], id)
      case None =>
        assert forall j :: 1 <= j < |s| ==> s[j] == s[1..][j - 1];
        None
      case Some(k) => Some(k + 1)
  }

  /** Some record of the store has the given id. */
  predicate Stored(s: Store, id: string) {
    Find(s, id).Some?
  }

  /** `Map.prototype.set`: a key already present keeps its position and gets
      the new record; a new key is added at the end. */
  function Put(s: Store, p: Procedure): (r: Store)
    ensures !Stored(s, p.id) ==> r == s + [p]
    ensures Stored(s, p.id) ==> |r| == |s| && r[Find(s, p.id).value] == p
    ensures Stored(s, p.id) ==> forall j :: 0 <= j < |s| && j != Find(s, p.id).value ==> r[j] == s[j]
  {
    match Find(s, p.id)
    case None => s + [p]
    case Some(k) => s[k := p]
  }

  /** Cutting position `k` out of a sequence shifts everything after it by one. */
  lemma CutIndices<T>(s: seq<T>, k: nat)
    requires k < |s|
    ensures var r := s[..k] + s[k + 1..];
      && |r| == |s| - 1
      && (forall j {:trigger r[j]} :: 0 <= j < k ==> r[j] == s[j])
      && (forall j {:trigger r[j]} :: k <= j < |r| ==> r[j] == s[j + 1])
  {
  }

  /** `Map.prototype.delete`: removes the entry with the given id, if any. */
  function Remove(s: Store, id: string): (r: Store)
    ensures !Stored(s, id) ==> r == s
    ensures Stored(s, id) ==> |r| == |s| - 1
    ensures Stored(s, id) ==> var k := Find(s, id).value;
      && (forall j {:trigger r[j]} :: 0 <= j < k ==> r[j] == s[j])
      && (forall j {:trigger r[j]} :: k <= j < |r| ==> r[j] == s[j + 1])
  {
    match Find(s, id)
    case None => s
    case Some(k) =>
      CutIndices(s, k);
      s[..k] + s[k + 1..]
  }

  /** Writing a record keeps the ids distinct. */
  lemma PutKeepsDistinctIds(s: Store, p: Procedure)
    requires DistinctIds(s)
    ensures DistinctIds(Put(s, p))
    ensures Stored(Put(s, p), p.id)
  {
    var r := Put(s, p);
    if Stored(s, p.id) {
      var k := Find(s, p.id).value;
      forall i, j | 0 <= i < j < |r| ensures r[i].id != r[j].id {
        if i == k { assert r[j] == s[j]; }
        else if j == k { assert r[i] == s[i]; }
        else { assert r[i] == s[i] && r[j] == s[j]; }
      }
      assert r[k].id == p.id;
    } else {
      assert r[|s|].id == p.id;
    }
  }

  /** Deleting keeps the ids distinct, and on a store with distinct ids it
      removes exactly the records with that id. */
  lemma {:induction false} RemoveKeepsDistinctIds(s: Store, id: string)
    requires DistinctIds(s)
    ensures DistinctIds(Remove(s, id))
    ensures forall p :: p in Remove(s, id) <==> p in s && p.id != id
  {
    var r := Remove(s, id);
    if Stored(s, id) {
      var k := Find(s, id).value;
      assert r == s[..k] + s[k + 1..];
      forall p ensures p in r <==> p in s && p.id != id {
        if p in r {
          var j :| 0 <= j < |r| && r[j] == p;
          if j < k { assert s[j] == p; } else { assert s[j + 1] == p; }
        }
        if p in s && p.id != id {
          var j :| 0 <= j < |s| && s[j] == p;
          if j < k { assert r[j] == p; } else { assert j != k; assert r[j - 1] == p; }
        }
      }
    } else {
      forall p | p in s ensures p.id != id {
        var j :| 0 <= j < |s| && s[j] == p;
        assert s[j].id == p.id;
      }
    }
  }

  /** The POST handler: the four mandatory fields must be truthy; `params`,
      `implementation` and `description` fall back to their defaults. The id
      and timestamp are supplied by the caller. */
  function Create(s: Store, f: CreateFields, newId: string, createdAt: string): (r: Result<(Store, Procedure), StoreError>)
    ensures r.Failure? <==> !Truthy(f.name) || !Truthy(f.framework) || !Truthy(f.protocol) || !Truthy(f.httpMethod)
    ensures r.Failure? ==> r.error == MissingMandatoryFields
    ensures r.Success? ==> var (s', p) := r.value;
      && p.id == newId && p.createdAt == createdAt
      && p.name == f.name.value && p.framework == f.framework.value
      && p.protocol == f.protocol.value && p.httpMethod == f.httpMethod.value
      && p in s'
    ensures r.Success? ==> var p := r.value.1;
      && (f.params.Some? ==> p.params == f.params.value)
      && (f.params.None? ==> p.params == [])
      && (Truthy(f.implementation) ==> p.implementation == f.implementation.value)
      && (!Truthy(f.implementation) ==> p.implementation == DefaultImplementation)
      && (Truthy(f.description) ==> p.description == f.description.value)
      && (!Truthy(f.description) ==> p.description == "")
    ensures r.Success? && !Stored(s, newId) ==> r.value.0 == s + [r.value.1]
    ensures r.Success? && DistinctIds(s) ==> DistinctIds(r.value.0)
  {
    if !Truthy(f.name) || !Truthy(f.framework) || !Truthy(f.protocol) || !Truthy(f.httpMethod) then
      Failure(MissingMandatoryFields)
    else
      var p := Procedure(
        newId,
        f.name.value,
        f.framework.value,
        f.protocol.value,
        f.httpMethod.value,
        f.params.GetOr([]),
        if Truthy(f.implementation) then f.implementation.value else DefaultImplementation,
        if Truthy(f.description) then f.description.value else "",
        createdAt);
      var s' := Put(s, p);
      assert p in s' by {
        if Stored(s, p.id) { assert s'[Find(s, p.id).value] == p; } else { assert s'[|s|] == p; }
      }
      assert DistinctIds(s) ==> DistinctIds(s') by {
        if DistinctIds(s) { PutKeepsDistinctIds(s, p); }
      }
      Success((s', p))
  }

  /** The GET-by-id handler. */
  function Get(s: Store, id: string): (r: Result<Procedure, StoreError>)
    ensures r.Failure? <==> !Stored(s, id)
    ensures r.Failure? ==> r.error == NotFound(id)
    ensures r.Success? ==> r.value in s && r.value.id == id
  {
    match Find(s, id)
    case None => Failure(NotFound(id))
    case Some(k) => Success(s[k])
  }

  /** `{ ...current, ...body, id: current.id }`: every field of the body
      overrides the record except the id. */
  function Merge(current: Procedure, body: UpdateFields): (p: Procedure)
    ensures p.id == current.id
    ensures body.name.Some? ==> p.name == body.name.value
    ensures body.name.None? ==> p.name == current.name
    ensures body.framework.Some? ==> p.framework == body.framework.value
    ensures body.framework.None? ==> p.framework == current.framework
    ensures body.protocol.Some? ==> p.protocol == body.protocol.value
    ensures body.protocol.None? ==> p.protocol == current.protocol
    ensures body.httpMethod.Some? ==> p.httpMethod == body.httpMethod.value
    ensures body.httpMethod.None? ==> p.httpMethod == current.httpMethod
    ensures body.params.Some? ==> p.params == body.params.value
    ensures body.params.None? ==> p.params == current.params
    ensures body.implementation.Some? ==> p.implementation == body.implementation.value
    ensures body.implementation.None? ==> p.implementation == current.implementation
    ensures body.description.Some? ==> p.description == body.description.value
    ensures body.description.None? ==> p.description == current.description
    ensures body.createdAt.Some? ==> p.createdAt == body.createdAt.value
    ensures body.createdAt.None? ==> p.createdAt == current.createdAt
  {
    Procedure(
      current.id,
      body.name.GetOr(current.name),
      body.framework.GetOr(current.framework),
      body.protocol.GetOr(current.protocol),
      body.httpMethod.GetOr(current.httpMethod),
      body.params.GetOr(current.params),
      body.implementation.GetOr(current.implementation),
      body.description.GetOr(current.description),
      body.createdAt.GetOr(current.createdAt))
  }

  /** The PUT handler: merges the body over the stored record, which keeps
      its id and its position. */
  function Update(s: Store, id: string, body: UpdateFields): (r: Result<(Store, Procedure), StoreError>)
    ensures r.Failure? <==> !Stored(s, id)
    ensures r.Failure? ==> r.error == NotFound(id)
    ensures r.Success? ==> var (s', p) := r.value; var k := Find(s, id).value;
      && p.id == id
      && |s'| == |s| && s'[k] == p
      && (forall j :: 0 <= j < |s| && j != k ==> s'[j] == s[j])
    ensures r.Success? ==> var (p, current) := (r.value.1, s[Find(s, id).value]);
      && p.name == body.name.GetOr(current.name)
      && p.framework == body.framework.GetOr(current.framework)
      && p.protocol == body.protocol.GetOr(current.protocol)
      && p.httpMethod == body.httpMethod.GetOr(current.httpMethod)
      && p.params == body.params.GetOr(current.params)
      && p.implementation == body.implementation.GetOr(current.implementation)
      && p.description == body.description.GetOr(current.description)
      && p.createdAt == body.createdAt.GetOr(current.createdAt)
    ensures r.Success? && DistinctIds(s) ==> DistinctIds(r.value.0)
  {
    match Find(s, id)
    case None => Failure(NotFound(id))
    case Some(k) =>
      var p := Merge(s[k], body);
      assert DistinctIds(s) ==> DistinctIds(Put(s, p)) by {
        if DistinctIds(s) { PutKeepsDistinctIds(s, p); }
      }
      Success((Put(s, p), p))
  }

  /** The DELETE handler: removes the record if present, and succeeds either way. */
  function Delete(s: Store, id: string): (r: Store)
    ensures !Stored(s, id) ==> r == s
    ensures DistinctIds(s) ==> !Stored(r, id)
    ensures DistinctIds(s) ==> forall p :: p in r <==> p in s && p.id != id
  {
    var r := Remove(s, id);
    assert DistinctIds(s) ==> forall p :: p in r <==> p in s && p.id != id by {
      if DistinctIds(s) { RemoveKeepsDistinctIds(s, id); }
    }
    r
  }

  /** `Stored` means what it says: some position of the store holds the id. */
  lemma StoredIff(s: Store, id: string)
    ensures Stored(s, id) <==> exists i :: 0 <= i < |s| && s[i].id == id
  {
    if Stored(s, id) {
      assert s[Find(s, id).value].id == id;
    }
  }

  /** Deleting twice is deleting once: the second call finds nothing. */
  lemma DeleteIdempotent(s: Store, id: string)
    requires DistinctIds(s)
    ensures Delete(Delete(s, id), id) == Delete(s, id)
  {
  }

  /** An empty update body gives the stored record back unchanged. */
  lemma MergeEmptyBody(current: Procedure)
    ensures Merge(current, UpdateFields(None, None, None, None, None, None, None, None, None)) == current
  {
  }

  /** An id carried by the update body makes no difference to the outcome. */
  lemma UpdateIgnoresBodyId(s: Store, id: string, body: UpdateFields, other: Option<string>)
    ensures Update(s, id, body) == Update(s, id, body.(id := other))
  {
  }

  /** `Find` is pinned down by the first position that holds the id. */
  lemma FindIs(s: Store, id: string, k: nat)
    requires k < |s| && s[k].id == id
    requires forall j :: 0 <= j < k ==> s[j].id != id
    ensures Find(s, id) == Some(k)
  {
  }

  /** Writing a record moves no id already in the store. */
  lemma FindAfterPut(s: Store, p: Procedure, a: string)
    requires Stored(s, a)
    ensures Find(Put(s, p), a) == Find(s, a)
  {
    var r := Put(s, p);
    var m := Find(s, a).value;
    if Stored(s, p.id) {
      var k := Find(s, p.id).value;
      if a == p.id {
        FindIs(r, a, k);
      } else {
        assert r[m] == s[m];
        FindIs(r, a, m);
      }
    } else {
      assert r[m] == s[m];
      FindIs(r, a, m);
    }
  }

  /** The ids after a write: the old ones and the written one. */
  lemma StoredAfterPut(s: Store, p: Procedure, a: string)
    ensures Stored(Put(s, p), a) <==> Stored(s, a) || a == p.id
  {
    var r := Put(s, p);
    if Stored(s, a) {
      FindAfterPut(s, p, a);
    }
    if a == p.id {
      if Stored(s, p.id) { assert r[Find(s, p.id).value].id == a; } else { assert r[|s|].id == a; }
    }
    if Stored(r, a) && a != p.id {
      var j := Find(r, a).value;
      if Stored(s, p.id) {
        assert j != Find(s, p.id).value;
        assert s[j].id == a;
      } else {
        assert j < |s| && s[j].id == a;
      }
    }
  }

  /** A store that is `s` with position `k` cut out finds a later first
      occurrence one place earlier. */
  lemma FindAfterCut(s: Store, r: Store, k: nat, a: string, m: nat)
    requires k < m < |s| && |r| == |s| - 1
    requires forall j {:trigger r[j]} :: 0 <= j < k ==> r[j] == s[j]
    requires forall j {:trigger r[j]} :: k <= j < |r| ==> r[j] == s[j + 1]
    requires s[m].id == a && forall j :: 0 <= j < m ==> s[j].id != a
    ensures Find(r, a) == Some(m - 1)
  {
    assert r[m - 1] == s[m];
    forall j | 0 <= j < m - 1 ensures r[j].id != a {
      if j < k { assert r[j] == s[j]; } else { assert r[j] == s[j + 1]; }
    }
    FindIs(r, a, m - 1);
  }

  /** Deleting one id moves every later record one place forward. */
  lemma FindAfterRemoveBefore(s: Store, x: string, a: string)
    requires Stored(s, a) && Stored(s, x)
    requires Find(s, x).value < Find(s, a).value
    ensures Find(Remove(s, x), a) == Some(Find(s, a).value - 1)
  {
    FindAfterCut(s, Remove(s, x), Find(s, x).value, a, Find(s, a).value);
  }

  /** Deleting one id keeps every earlier record where it was. */
  lemma FindAfterRemoveAfter(s: Store, x: string, a: string)
    requires Stored(s, a) && a != x
    requires !(Stored(s, x) && Find(s, x).value < Find(s, a).value)
    ensures Find(Remove(s, x), a) == Find(s, a)
  {
    var r := Remove(s, x);
    var m := Find(s, a).value;
    if Stored(s, x) {
      assert m < Find(s, x).value;
      forall j | 0 <= j <= m ensures r[j] == s[j] { }
      FindIs(r, a, m);
    } else {
      assert r == s;
    }
  }

  /** Deleting another id keeps `a`, and shifts it forward exactly when
      the deleted record came before it. */
  lemma FindAfterRemove(s: Store, x: string, a: string)
    requires Stored(s, a) && a != x
    ensures Stored(Remove(s, x), a)
    ensures Stored(s, x) && Find(s, x).value < Find(s, a).value ==>
      Find(Remove(s, x), a) == Some(Find(s, a).value - 1)
    ensures !(Stored(s, x) && Find(s, x).value < Find(s, a).value) ==>
      Find(Remove(s, x), a) == Find(s, a)
  {
    if Stored(s, x) && Find(s, x).value < Find(s, a).value {
      FindAfterRemoveBefore(s, x, a);
    } else {
      FindAfterRemoveAfter(s, x, a);
    }
  }

  /** The ids after a delete are among the ids before it. */
  lemma StoredAfterRemove(s: Store, x: string, a: string)
    requires Stored(Remove(s, x), a)
    ensures Stored(s, a)
  {
    var r := Remove(s, x);
    var j := Find(r, a).value;
    if Stored(s, x) {
      var k := Find(s, x).value;
      if j < k { assert s[j].id == a; } else { assert s[j + 1].id == a; }
    }
  }
}
