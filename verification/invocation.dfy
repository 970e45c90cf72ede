/** The invoke handler of the server: look the procedure up, check the
    arguments against its declared parameters in order, run the wrapped
    implementation and package the outcome. */
module Invocation {
  import opened Wrappers
  import opened Values
  import opened Procedures
  import opened JsText
  import opened Implementation

  /** Why an argument mapping was refused: a required parameter is missing,
      or a present argument does not carry the declared type tag. */
  datatype ArgError = MissingParam(name: string) | WrongType(name: string, expected: string)

  datatype InvokeError =
    | UnknownProcedure(id: string)
    | InvalidArgs(reason: ArgError)
    | ExecutionFailed(details: string)

  /** What running the user's code did: it returned a value or threw. */
  datatype ExecOutcome = Returned(value: Value) | Threw(message: string)

  /** The success body `{ ok: true, framework, protocol, method, result }`. */
  datatype InvocationResult = InvocationResult(
    ok: bool, framework: string, protocol: string, httpMethod: string, result: Value)

  /** The type tags the handler checks; any other declared type is not checked. */
  predicate IsCheckedType(typeName: string) {
    typeName == "number" || typeName == "boolean" || typeName == "string"
  }

  /** The checks made for one declared parameter. */
  function CheckParam(p: ParamSpec, args: Args): (r: Outcome<ArgError>)
    ensures r == Fail(MissingParam(p.name)) <==> p.required && p.name !in args
    ensures r.Fail? ==> r.error.MissingParam? || r.error == WrongType(p.name, p.typeName)
    ensures r == Fail(WrongType(p.name, p.typeName)) <==>
      && !(p.required && p.name !in args)
      && p.name in args && IsCheckedType(p.typeName) && TypeOf(args[p.name]) != p.typeName
    ensures r.Pass? <==>
      && (p.required ==> p.name in args)
      && (p.name in args && IsCheckedType(p.typeName) ==> TypeOf(args[p.name]) == p.typeName)
  {
    if p.required && p.name !in args then
      Fail(MissingParam(p.name))
    else if p.name in args && p.typeName != "" then
      var tag := TypeOf(args[p.name]);
      if p.typeName == "number" && tag != "number" then Fail(WrongType(p.name, "number"))
      else if p.typeName == "boolean" && tag != "boolean" then Fail(WrongType(p.name, "boolean"))
      else if p.typeName == "string" && tag != "string" then Fail(WrongType(p.name, "string"))
      else Pass
    else
      Pass
  }

  /** The validation loop: parameters are checked in declaration order and
      the first failing one decides the error. */
  function Validate(params: seq<ParamSpec>, args: Args): (r: Outcome<ArgError>)
    ensures r.Pass? <==> forall i :: 0 <= i < |params| ==> CheckParam(params[i], args).Pass?
    ensures r.Fail? ==>
      exists i :: 0 <= i < |params| && CheckParam(params[i], args) == r &&
        forall j :: 0 <= j < i ==> CheckParam(params[j], args).Pass?
  {
    if |params| == 0 then
      Pass
    else
      var first := CheckParam(params[0], args);
      if first.Fail? then
        first
      else
        var rest := Validate(params[1..], args);
        assert forall i :: 1 <= i < |params| ==> params[i] == params[1..][i - 1];
        rest
  }

  /** The text the server hands to `new Function('args', ...)`: the
      strict-mode directive, then the wrapped snippet. */
  function FunctionBody(implementation: string): (r: string)
    ensures |r| >= 14 && r[..14] == "\"use strict\"; "
    ensures r[14..] == Wrap(implementation)
    ensures HasReturnWord(r[14..]) && IsTrimmed(r[14..])
  {
    "\"use strict\"; " + Wrap(implementation)
  }

  /** The invoke handler. `exec` stands for compiling and calling the
      function body with the arguments; `body` is the request's `args`
      field, `None` when it is absent or falsy (`req.body?.args || {}`). */
  function Invoke(s: Store, id: string, body: Option<Args>, exec: (string, Args) -> ExecOutcome)
    : (r: Result<InvocationResult, InvokeError>)
    ensures r == Failure(UnknownProcedure(id)) <==> !Stored(s, id)
    ensures r.Failure? && r.error.InvalidArgs? ==>
      exists p :: p in s && p.id == id &&
        Validate(p.params, body.GetOr(map[])) == Fail(r.error.reason)
    ensures r.Success? ==>
      exists p ::
        && p in s && p.id == id
        && Validate(p.params, body.GetOr(map[])).Pass?
        && exec(FunctionBody(p.implementation), body.GetOr(map[])) == Returned(r.value.result)
        && r.value == InvocationResult(true, p.framework, p.protocol, p.httpMethod, r.value.result)
    ensures Stored(s, id) ==>
      var p, args := s[Find(s, id).value], body.GetOr(map[]);
      var verdict, outcome := Validate(p.params, args), exec(FunctionBody(p.implementation), args);
      && (verdict.Fail? ==> r == Failure(InvalidArgs(verdict.error)))
      && (verdict.Pass? && outcome.Threw? ==> r == Failure(ExecutionFailed(outcome.message)))
      && (verdict.Pass? && outcome.Returned? ==>
            r == Success(InvocationResult(true, p.framework, p.protocol, p.httpMethod, outcome.value)))
  {
    match Get(s, id)
    case Failure(_) => Failure(UnknownProcedure(id))
    case Success(p) =>
      var args := body.GetOr(map[]);
      match Validate(p.params, args)
      case Fail(e) => Failure(InvalidArgs(e))
      case Pass =>
        match exec(FunctionBody(p.implementation), args)
        case Threw(message) => Failure(ExecutionFailed(message))
        case Returned(v) => Success(InvocationResult(true, p.framework, p.protocol, p.httpMethod, v))
  }

  /** Two argument mappings agree on every declared parameter name. */
  predicate AgreeOnDeclared(params: seq<ParamSpec>, a: Args, b: Args) {
    forall i :: 0 <= i < |params| ==>
      (params[i].name in a <==> params[i].name in b) &&
      (params[i].name in a ==> a[params[i].name] == b[params[i].name])
  }

  /** Validation looks only at the declared names: arguments that agree on
      them are accepted or refused alike, with the same error. */
  lemma {:induction false} ValidateSeesOnlyDeclared(params: seq<ParamSpec>, a: Args, b: Args)
    requires AgreeOnDeclared(params, a, b)
    ensures Validate(params, a) == Validate(params, b)
  {
    if |params| > 0 {
      assert CheckParam(params[0], a) == CheckParam(params[0], b);
      assert AgreeOnDeclared(params[1..], a, b) by {
        forall i | 0 <= i < |params[1..]| ensures params[1..][i] == params[i + 1] { }
      }
      ValidateSeesOnlyDeclared(params[1..], a, b);
    }
  }

  /** An argument that no parameter declares is never rejected: adding it
      does not change the outcome of validation. */
  lemma ExtraArgIgnored(params: seq<ParamSpec>, args: Args, extra: string, v: Value)
    requires forall i :: 0 <= i < |params| ==> params[i].name != extra
    ensures Validate(params, args[extra := v]) == Validate(params, args)
  {
    ValidateSeesOnlyDeclared(params, args[extra := v], args);
  }

  /** The three outcomes for a single required number parameter `x`. */
  lemma ValidateExamples()
    ensures Validate([ParamSpec("x", "number", true)], map[]) == Fail(MissingParam("x"))
    ensures Validate([ParamSpec("x", "number", true)], map["x" := Str("5")]) == Fail(WrongType("x", "number"))
    ensures Validate([ParamSpec("x", "number", true)], map["x" := Num(5.0)]) == Pass
  {
    var params := [ParamSpec("x", "number", true)];
    assert params[1..] == [];
  }

  /** A failing parameter stops the walk even when a later one would fail
      for another reason. */
  lemma ValidateFirstFailureWins()
    ensures Validate([ParamSpec("a", "", true), ParamSpec("b", "string", false)], map["b" := Bool(true)])
         == Fail(MissingParam("a"))
  {
  }
}
