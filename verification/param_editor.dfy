/** The client-side parameter list editor: the list of declared parameters
    a user builds before saving a procedure. It is the one place where
    parameter names are kept unique. */
module ParamEditor {
  import opened JsText
  import opened Procedures

  /** What the add button did: added the parameter, ignored a blank name,
      or refused a name already in the list (the client shows an alert). */
  datatype AddOutcome = Added | IgnoredBlank | DuplicateName

  /** Some parameter in the list has this name. */
  predicate HasName(params: seq<ParamSpec>, name: string) {
    exists i :: 0 <= i < |params| && params[i].name == name
  }

  /** The editor's invariant: names are trimmed, non-empty and pairwise distinct. */
  predicate WellFormed(params: seq<ParamSpec>) {
    && (forall i :: 0 <= i < |params| ==> params[i].name != "" && IsTrimmed(params[i].name))
    && DistinctNames(params)
  }

  /** The add-parameter click handler: trims the typed name, ignores it when
      blank, refuses it when taken, and appends the parameter otherwise. */
  function AddParam(params: seq<ParamSpec>, typedName: string, typeName: string, required: bool)
    : (r: (seq<ParamSpec>, AddOutcome))
    ensures r.1 == IgnoredBlank <==> Trim(typedName) == ""
    ensures r.1 == DuplicateName <==> Trim(typedName) != "" && HasName(params, Trim(typedName))
    ensures r.1 != Added ==> r.0 == params
    ensures r.1 == Added ==> r.0 == params + [ParamSpec(Trim(typedName), typeName, required)]
  {
    var name := Trim(typedName);
    if name == "" then
      (params, IgnoredBlank)
    else if exists i :: 0 <= i < |params| && params[i].name == name then
      (params, DuplicateName)
    else
      (params + [ParamSpec(name, typeName, required)], Added)
  }

  /** The remove button: `splice(i, 1)`, which removes nothing when `i` is
      past the end. */
  function RemoveParam(params: seq<ParamSpec>, i: nat): (r: seq<ParamSpec>)
    ensures i < |params| ==> |r| == |params| - 1
    ensures i < |params| ==> forall j :: 0 <= j < i ==> r[j] == params[j]
    ensures i < |params| ==> forall j :: i <= j < |r| ==> r[j] == params[j + 1]
    ensures i >= |params| ==> r == params
    ensures i < |params| ==> multiset(r) + multiset{params[i]} == multiset(params)
  {
    if i < |params| then
      assert params == params[..i] + [params[i]] + params[i + 1..];
      params[..i] + params[i + 1..]
    else
      params
  }

  /** Adding keeps the invariant. */
  lemma AddKeepsWellFormed(params: seq<ParamSpec>, typedName: string, typeName: string, required: bool)
    requires WellFormed(params)
    ensures WellFormed(AddParam(params, typedName, typeName, required).0)
  {
  }

  /** Removing keeps the invariant. */
  lemma RemoveKeepsWellFormed(params: seq<ParamSpec>, i: nat)
    requires WellFormed(params)
    ensures WellFormed(RemoveParam(params, i))
  {
    var r := RemoveParam(params, i);
    if i < |params| {
      forall a, b | 0 <= a < b < |r| ensures r[a].name != r[b].name {
        var a' := if a < i then a else a + 1;
        var b' := if b < i then b else b + 1;
        assert r[a] == params[a'] && r[b] == params[b'];
      }
    }
  }

  /** One edit a user can make. */
  datatype Edit = Add(typedName: string, typeName: string, required: bool) | RemoveAt(index: nat)

  /** The list after a sequence of edits, starting from `params`. */
  function ApplyEdits(params: seq<ParamSpec>, edits: seq<Edit>): seq<ParamSpec>
    decreases |edits|
  {
    if |edits| == 0 then
      params
    else
      var next := match edits[0]
        case Add(n, t, req) => AddParam(params, n, t, req).0
        case RemoveAt(i) => RemoveParam(params, i);
      ApplyEdits(next, edits[1..])
  }

  /** Applying two sequences of edits one after the other is applying their
      concatenation. */
  lemma {:induction false} ApplyEditsAppend(params: seq<ParamSpec>, e1: seq<Edit>, e2: seq<Edit>)
    ensures ApplyEdits(params, e1 + e2) == ApplyEdits(ApplyEdits(params, e1), e2)
    decreases |e1|
  {
    if |e1| == 0 {
      assert e1 + e2 == e2;
    } else {
      assert (e1 + e2)[0] == e1[0];
      assert (e1 + e2)[1..] == e1[1..] + e2;
      var next := match e1[0]
        case Add(n, t, req) => AddParam(params, n, t, req).0
        case RemoveAt(i) => RemoveParam(params, i);
      ApplyEditsAppend(next, e1[1..], e2);
    }
  }

  /** Across any sequence of adds and removes, starting from the empty list
      the editor starts with, names stay non-empty and pairwise distinct. */
  lemma {:induction false} EditsKeepWellFormed(params: seq<ParamSpec>, edits: seq<Edit>)
    requires WellFormed(params)
    ensures WellFormed(ApplyEdits(params, edits))
    decreases |edits|
  {
    if |edits| > 0 {
      match edits[0] {
        case Add(n, t, req) => AddKeepsWellFormed(params, n, t, req);
        case RemoveAt(i) => RemoveKeepsWellFormed(params, i);
      }
      var next := match edits[0]
        case Add(n, t, req) => AddParam(params, n, t, req).0
        case RemoveAt(i) => RemoveParam(params, i);
      EditsKeepWellFormed(next, edits[1..]);
    }
  }
}
