/** The client-side invoke dialog: one input per declared parameter, and the
    loop that turns the filled inputs into the `args` mapping sent to the
    server. */
module InvokeForm {
  import opened Wrappers
  import opened Values
  import opened Procedures
  import opened Invocation

  /** One input of the dialog: its `name`, its text `value` and whether it
      is marked `required`. */
  datatype Field = Field(name: string, value: string, required: bool)

  /** The dialog's inputs: one per declared parameter, in order, holding
      the texts the user typed. */
  function FieldsFor(params: seq<ParamSpec>, values: seq<string>): (fields: seq<Field>)
    requires |values| == |params|
    ensures |fields| == |params|
    ensures forall i :: 0 <= i < |params| ==>
      fields[i] == Field(params[i].name, values[i], params[i].required)
  {
    seq(|params|, i requires 0 <= i < |params| => Field(params[i].name, values[i], params[i].required))
  }

  /** `params.find(p => p.name === name)`: the first parameter with the name. */
  function FindParam(params: seq<ParamSpec>, name: string): (r: Option<ParamSpec>)
    ensures r.Some? ==> r.value in params && r.value.name == name
    ensures r.None? <==> forall i :: 0 <= i < |params| ==> params[i].name != name
    ensures r.Some? ==>
      exists i :: 0 <= i < |params| && params[i] == r.value &&
        forall j :: 0 <= j < i ==> params[j].name != name
  {
    if |params| == 0 then None
    else if params[0].name == name then Some(params[0])
    else
      var r := FindParam(params[1..], name);
      assert forall j :: 1 <= j < |params| ==> params[j] == params[1..][j - 1];
      r
  }

  /** `coerce(type, v)` for a typed text: a number type goes through the
      host's number conversion `Number(v)`, passed in as `toNumber`, which
      gives `None` for NaN and the infinities; a boolean type is true
      exactly for the text `true`; any other type, or none, keeps the text. */
  function Coerce(typeName: Option<string>, v: string, toNumber: string -> Option<real>): (r: Value)
    ensures typeName == Some("number") ==> TypeOf(r) == "number"
    ensures typeName == Some("number") ==> (r.Num? <==> toNumber(v).Some?)
    ensures r.Num? ==> toNumber(v) == Some(r.n)
    ensures typeName == Some("boolean") ==> r == Bool(v == "true")
    ensures typeName != Some("number") && typeName != Some("boolean") ==> r == Str(v)
  {
    if typeName == Some("number") then
      match toNumber(v)
      case Some(x) => Num(x)
      case None => NonFinite
    else if typeName == Some("boolean") then Bool(v == "true")
    else Str(v)
  }

  /** The declared type of the first parameter called `name`, if any (`def?.type`). */
  function DeclaredType(params: seq<ParamSpec>, name: string): Option<string> {
    match FindParam(params, name)
    case Some(p) => Some(p.typeName)
    case None => None
  }

  /** The names of the inputs that hold text. */
  function FilledNames(fields: seq<Field>): set<string> {
    set i | 0 <= i < |fields| && fields[i].value != "" :: fields[i].name
  }

  /** The input at `i` holds text and no later input with its name does. */
  predicate LastFilled(fields: seq<Field>, i: int)
    requires 0 <= i < |fields|
  {
    fields[i].value != "" &&
    forall j :: i < j < |fields| ==> fields[j].name != fields[i].name || fields[j].value == ""
  }

  /** An input that is required and empty. */
  predicate Blocking(f: Field) {
    f.value == "" && f.required
  }

  /** The submit handler's loop over the inputs: an empty required input
      aborts with its name; every input holding text sets `args[name]` to
      its coerced value; empty optional inputs are skipped. */
  function BuildArgs(fields: seq<Field>, params: seq<ParamSpec>, toNumber: string -> Option<real>)
    : (r: Result<Args, string>)
    ensures r.Failure? ==> exists i :: 0 <= i < |fields| && Blocking(fields[i]) && r.error == fields[i].name
    decreases |fields|
  {
    if |fields| == 0 then
      Success(map[])
    else
      var f := fields[|fields| - 1];
      match BuildArgs(fields[..|fields| - 1], params, toNumber)
      case Failure(name) => Failure(name)
      case Success(args) =>
        if Blocking(f) then Failure(f.name)
        else if f.value != "" then Success(args[f.name := Coerce(DeclaredType(params, f.name), f.value, toNumber)])
        else Success(args)
  }

  /** The build aborts exactly when some input is required and empty, and
      then names the first such input. */
  lemma {:induction false} BuildArgsAborts(fields: seq<Field>, params: seq<ParamSpec>, toNumber: string -> Option<real>)
    ensures BuildArgs(fields, params, toNumber).Failure? <==> exists i :: 0 <= i < |fields| && Blocking(fields[i])
    ensures BuildArgs(fields, params, toNumber).Failure? ==>
      exists i :: 0 <= i < |fields| && Blocking(fields[i]) &&
        BuildArgs(fields, params, toNumber).error == fields[i].name &&
        forall j :: 0 <= j < i ==> !Blocking(fields[j])
    decreases |fields|
  {
    if |fields| > 0 {
      var front := fields[..|fields| - 1];
      assert forall i :: 0 <= i < |front| ==> front[i] == fields[i];
      BuildArgsAborts(front, params, toNumber);
    }
  }

  /** A successful build has exactly the names of the inputs holding text as keys. */
  lemma {:induction false} BuildArgsKeys(fields: seq<Field>, params: seq<ParamSpec>, toNumber: string -> Option<real>)
    requires BuildArgs(fields, params, toNumber).Success?
    ensures BuildArgs(fields, params, toNumber).value.Keys == FilledNames(fields)
    decreases |fields|
  {
    if |fields| > 0 {
      var front := fields[..|fields| - 1];
      var f := fields[|fields| - 1];
      assert forall i :: 0 <= i < |front| ==> front[i] == fields[i];
      BuildArgsKeys(front, params, toNumber);
      forall k ensures k in FilledNames(fields) <==> k in FilledNames(front) || (f.value != "" && k == f.name) {
        if k in FilledNames(fields) {
          var i :| 0 <= i < |fields| && fields[i].value != "" && fields[i].name == k;
          if i < |front| { assert front[i].value != "" && front[i].name == k; }
        }
        if k in FilledNames(front) {
          var i :| 0 <= i < |front| && front[i].value != "" && front[i].name == k;
          assert fields[i].value != "" && fields[i].name == k;
        }
        if f.value != "" && k == f.name {
          assert fields[|fields| - 1].value != "";
        }
      }
    }
  }

  /** In a successful build, the value under a name is the coerced text of
      the last input with that name that holds text. */
  lemma {:induction false} BuildArgsValues(fields: seq<Field>, params: seq<ParamSpec>, toNumber: string -> Option<real>, i: nat)
    requires BuildArgs(fields, params, toNumber).Success?
    requires i < |fields| && LastFilled(fields, i)
    ensures fields[i].name in BuildArgs(fields, params, toNumber).value
    ensures BuildArgs(fields, params, toNumber).value[fields[i].name]
         == Coerce(DeclaredType(params, fields[i].name), fields[i].value, toNumber)
    decreases |fields|
  {
    var front := fields[..|fields| - 1];
    var f := fields[|fields| - 1];
    if i < |fields| - 1 {
      assert front[i] == fields[i];
      assert LastFilled(front, i) by {
        forall j | i < j < |front| ensures front[j].name != front[i].name || front[j].value == "" {
          assert front[j] == fields[j];
        }
      }
      BuildArgsValues(front, params, toNumber, i);
    }
  }

  /** A parameter whose input was left empty is optional and absent from
      the built arguments. */
  lemma {:induction false} EmptyInputAbsent(params: seq<ParamSpec>, values: seq<string>, toNumber: string -> Option<real>, i: nat)
    requires DistinctNames(params) && |values| == |params| && i < |params| && values[i] == ""
    requires BuildArgs(FieldsFor(params, values), params, toNumber).Success?
    ensures !params[i].required
    ensures params[i].name !in BuildArgs(FieldsFor(params, values), params, toNumber).value
  {
    var fields := FieldsFor(params, values);
    BuildArgsAborts(fields, params, toNumber);
    assert fields[i] == Field(params[i].name, "", params[i].required);
    assert !Blocking(fields[i]);
    BuildArgsKeys(fields, params, toNumber);
    assert params[i].name !in FilledNames(fields) by {
      forall j | 0 <= j < |fields| && fields[j].value != "" ensures fields[j].name != params[i].name {
        assert fields[j].name == params[j].name && j != i;
      }
    }
  }

  /** A parameter whose input holds text gets its own coerced value. */
  lemma {:induction false} FilledInputCoerced(params: seq<ParamSpec>, values: seq<string>, toNumber: string -> Option<real>, i: nat)
    requires DistinctNames(params) && |values| == |params| && i < |params| && values[i] != ""
    requires BuildArgs(FieldsFor(params, values), params, toNumber).Success?
    ensures params[i].name in BuildArgs(FieldsFor(params, values), params, toNumber).value
    ensures BuildArgs(FieldsFor(params, values), params, toNumber).value[params[i].name]
         == Coerce(Some(params[i].typeName), values[i], toNumber)
  {
    var fields := FieldsFor(params, values);
    assert LastFilled(fields, i);
    BuildArgsValues(fields, params, toNumber, i);
    assert FindParam(params, params[i].name) == Some(params[i]);
  }

  /** What the server receives for parameter `i`: after the JSON round trip
      it is refused exactly when its input holds text that a number type
      turns into NaN or an infinity, which arrives as `null`. */
  lemma {:induction false} SentParamPasses(params: seq<ParamSpec>, values: seq<string>, toNumber: string -> Option<real>, i: nat)
    requires DistinctNames(params) && |values| == |params| && i < |params|
    requires BuildArgs(FieldsFor(params, values), params, toNumber).Success?
    ensures CheckParam(params[i], JsonArgs(BuildArgs(FieldsFor(params, values), params, toNumber).value)).Pass?
        <==> !(values[i] != "" && params[i].typeName == "number" && toNumber(values[i]).None?)
  {
    var built := BuildArgs(FieldsFor(params, values), params, toNumber).value;
    var p := params[i];
    if values[i] == "" {
      EmptyInputAbsent(params, values, toNumber, i);
      assert p.name !in JsonArgs(built);
    } else {
      FilledInputCoerced(params, values, toNumber, i);
      var v := Coerce(Some(p.typeName), values[i], toNumber);
      assert built[p.name] == v && !v.Undefined?;
      assert JsonArgs(built)[p.name] == JsonValue(v);
    }
  }

  /** Arguments the dialog builds for a procedure whose parameter names are
      distinct, as the editor keeps them, pass the server's validation once
      they have been sent as JSON exactly when every number input holding
      text converts to a finite number: required inputs are filled, and a
      NaN or infinity arrives as `null`, which is not a number. */
  lemma {:induction false} FormArgsPassValidation(params: seq<ParamSpec>, values: seq<string>, toNumber: string -> Option<real>)
    requires DistinctNames(params) && |values| == |params|
    requires BuildArgs(FieldsFor(params, values), params, toNumber).Success?
    ensures Validate(params, JsonArgs(BuildArgs(FieldsFor(params, values), params, toNumber).value)).Pass? <==>
      forall i :: 0 <= i < |params| && values[i] != "" && params[i].typeName == "number" ==> toNumber(values[i]).Some?
  {
    forall i | 0 <= i < |params|
      ensures CheckParam(params[i], JsonArgs(BuildArgs(FieldsFor(params, values), params, toNumber).value)).Pass?
        <==> !(values[i] != "" && params[i].typeName == "number" && toNumber(values[i]).None?)
    {
      SentParamPasses(params, values, toNumber, i);
    }
  }

  /** A required number input holding `abc`, which `Number` turns into NaN,
      reaches the server as `null` and is refused as not a number. */
  lemma NonNumericInputRefused(toNumber: string -> Option<real>)
    requires toNumber("abc") == None
    ensures var params := [ParamSpec("x", "number", true)];
      var built := BuildArgs(FieldsFor(params, ["abc"]), params, toNumber);
      built == Success(map["x" := NonFinite]) &&
      Validate(params, JsonArgs(built.value)) == Fail(WrongType("x", "number"))
  {
    var params := [ParamSpec("x", "number", true)];
    var fields := FieldsFor(params, ["abc"]);
    assert fields == [Field("x", "abc", true)];
    assert fields[..0] == [];
    assert FindParam(params, "x") == Some(params[0]);
    assert JsonArgs(map["x" := NonFinite]) == map["x" := Null];
    assert params[1..] == [];
  }
}
