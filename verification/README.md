# RPC Lab procedure registry — a Dafny model

RPC Lab is a small web prototype. Users declare remote procedures in it:
a name, an RPC framework (gRPC, Java RMI, .NET Remoting), a transport
protocol, an HTTP method, typed parameters and a JavaScript implementation
snippet. The server keeps the procedures in an in-memory store and can
"invoke" one. It checks the arguments against the declared parameters,
wraps the snippet into a function body and runs it.

This project models the decision logic of that system as pure Dafny
functions and proves what the code promises about it.

- **Procedure store** (`procedures.dfy`, module `Procedures`). The
  insertion-ordered `Map` from id to record is a sequence of records with
  distinct ids.
  - `Map.set` is `Put`: a known id keeps its position and a new id is
    appended.
  - `Map.delete` is `Remove`.
  - `Create`, `Get`, `Update` and `Delete` are the decisions of the CRUD
    handlers.
- **Request sequence** (`registry.dfy`, module `Registry`). `Apply` answers
  one request: list, get, create, update, delete or invoke. `Run` folds a
  sequence of requests.
  - The store invariant (distinct ids) holds across any run.
  - Listing order is preserved across any run.
- **Argument validation and invocation** (`invocation.dfy`, module
  `Invocation`). This covers the fail-fast walk over the declared
  parameters and the packaging of a successful call. Running the user's
  code is a parameter `exec`.
- **Values** (`values.dfy`, module `Values`). JavaScript values are a
  closed datatype seen through `typeof`. The JSON round trip between the
  dialog and the server writes NaN and the infinities as `null` and drops
  `undefined` properties.
- **`wrapImplementation`** (`implementation.dfy`, module `Implementation`).
  It trims the snippet and tests it against two regular expressions: a
  three-way alternation for a function literal, then the word `return`.
  Both are written out as predicates.
  - The output is stated exactly for each class.
  - Wrapping is idempotent and ignores surrounding white space.
- **JavaScript text primitives** (`text.dfy`, module `JsText`). These are
  `trim`, and the `\s`, `.` and `\b` of the regular expressions, all
  over `seq<char>`.
- **Client parameter editor** (`param_editor.dfy`, module `ParamEditor`).
  This is the add and remove handlers. It is the only place where
  parameter names are kept unique.
- **Client invoke dialog** (`invoke_form.dfy`, module `InvokeForm`). This is
  `coerce` and the loop that builds `args` from the dialog's inputs.
  - If the parameter names are distinct, an argument mapping the dialog
    builds passes the server's validation exactly when every number input
    holding text converts to a finite number. Otherwise `Number(v)` gives
    NaN or an infinity, which arrives at the server as `null` and is
    refused as not a number.
- **Static metadata** (`metadata.dfy`, module `Metadata`). This is the
  protocol list per framework.
- **Support types** (`wrappers.dfy`, module `Wrappers`): `Option`,
  `Result` and `Outcome`.

Injected values:
- Ids and timestamps come from `uuidv4()` and the clock. They are inputs of
  `Create` (`newId`, `createdAt`).
- Executing the snippet with `new Function` is the function parameter
  `exec`. It receives exactly the text the server builds,
  `"use strict"; ` followed by the wrapped snippet.
- `Number(v)` in `coerce` is the function parameter `toNumber`. It gives
  `None` where `Number(v)` gives NaN or an infinity.

Two behaviours of the code worth knowing:
- A create request that lacks any of `name`, `framework`, `protocol` and
  `method` gets one error for all four (`MissingMandatoryFields`). The
  error does not name the missing field.
- An empty snippet wraps to `return ();` (`Implementation.WrapExampleEmpty`).
  That text is a syntax error, so `new Function` throws inside the `try`
  (server.js:116-121). The request gets the execution-error reply: `exec`
  yields `Threw` and `Invoke` yields `ExecutionFailed`. There is no
  separate outcome for an empty snippet.

Record fields `method` and `type` are spelled `httpMethod` and `typeName`,
because `method` and `type` are Dafny keywords.

## Model

| member | source | states |
|---|---|---|
| JsText.Trim | server.js:135 | the trim has no white space at either end and is no longer than the text |
| JsText.TrimSplit | server.js:135 | `trim` removes only white space: every text is a run of white space, then its trim, then another run of white space |
| JsText.TrimIgnoresPadding | server.js:135 | white space added at either end of a text does not change its trim |
| JsText.TrimIdempotent | server.js:135 | trimming a trimmed text changes nothing |
| JsText.TrimOfPadded | server.js:135 | a text with no white space at its ends, padded with white space, trims back to itself |
| Implementation.Wrap | server.js:132-143 | the wrapped body always contains `return` as a whole word and has no white space at either end |
| Implementation.FunctionShapeStart | server.js:136 | a text that looks like a function literal starts with `f`, `(` or `as` |
| Implementation.NotFunctionLiteral | server.js:136 | a text that starts with none of `f`, `(` and `as` is not a function literal |
| Implementation.ReturnBetween | server.js:141 | `return` between two non-word characters, or at either end of the text, is found as a whole word |
| Implementation.NoReturnWord | server.js:141 | a text with no `r` directly followed by `e` does not hold the word `return` |
| Implementation.WrapFunctionLiteral | server.js:136-140 | a trimmed text matching one of the three function-literal patterns becomes exactly `return (` + text + `)(args);` |
| Implementation.WrapStatementBlock | server.js:141-142 | a trimmed text that is no function literal but contains the whole word `return` is used unchanged |
| Implementation.WrapExpression | server.js:141-142 | any other trimmed text becomes exactly `return (` + text + `);` |
| Implementation.WrapIdempotent | server.js:132-143 | wrapping an already wrapped body gives it back unchanged |
| Implementation.WrapIgnoresPadding | server.js:135 | white space around a snippet does not change its wrapping |
| Implementation.WrapExampleArrow | server.js:136-139 | the function-literal test wins: an arrow function whose body holds `return` is still called with `args` |
| Implementation.WrapExampleWordBoundary | server.js:141-142 | `returned` does not hold the word `return`, so it is wrapped as an expression |
| Implementation.WrapExampleBlock | server.js:141-142 | `return args.x + 1;` is used as written |
| Implementation.WrapExampleExpression | server.js:135-142 | `args.x + 1` with surrounding white space becomes `return (args.x + 1);` |
| Implementation.WrapExampleEmpty | server.js:135-142 | an empty snippet becomes `return ();`, which is not classified separately |
| Values.TypeOf | server.js:105-106 | the `typeof` tag is `string`, `number` or `boolean` exactly for strings, numbers (finite or not) and booleans |
| Values.JsonValue | public/app.js:9 | after the JSON round trip a value is one `JSON.parse` can produce; it keeps its `typeof` tag exactly when it is not NaN or an infinity, and a JSON value comes back unchanged |
| Values.JsonArgs | public/app.js:9 | the round trip keeps exactly the keys whose value is not `undefined`, every value is one `JSON.parse` can produce, and only NaN and the infinities change their `typeof` tag |
| Values.JsonArgsIdempotent | public/app.js:9 | a second JSON round trip changes nothing |
| Values.JsonArgsOfJson | public/app.js:9 | arguments that hold only JSON values come through the round trip unchanged |
| Procedures.Find | server.js:52 | the lookup yields the first position holding the id, or nothing when no position holds it |
| Procedures.StoredIff | server.js:52 | an id is stored exactly when some record of the store carries it |
| Procedures.Put | server.js:75 | `Map.set`: a new id is appended at the end; a known id keeps its position, and every other entry is untouched |
| Procedures.Remove | server.js:88 | `Map.delete`: an absent id leaves the store as it was; otherwise exactly that entry goes and the rest keep their order |
| Procedures.PutKeepsDistinctIds | server.js:75 | writing a record keeps ids distinct, and the written id is stored afterwards |
| Procedures.RemoveKeepsDistinctIds | server.js:88 | deleting keeps ids distinct and removes exactly the records with that id |
| Procedures.Create | server.js:57-77 | the create is refused, with the mandatory-fields error, exactly when name, framework, protocol or method is absent or empty; otherwise the new record carries the given fields, id and timestamp, with defaults `[]`, `return { ok: true };` and `""`, and a fresh id is appended after all existing records |
| Procedures.Get | server.js:51-55 | not-found exactly when no record has the id; otherwise a stored record with that id |
| Procedures.Update | server.js:79-85 | not-found exactly when the id is absent; otherwise the record keeps its id and its position, each field takes the body's value or keeps its old one, and every other record is unchanged |
| Procedures.Merge | server.js:82 | each field takes the body's value when the body has one and keeps the current value otherwise; the id is always the current one |
| Procedures.MergeEmptyBody | server.js:82 | merging a body with no fields gives back the current record |
| Procedures.UpdateIgnoresBodyId | server.js:82 | an id in the update body makes no difference to the outcome |
| Procedures.Delete | server.js:87-90 | an absent id leaves the store unchanged; on a store with distinct ids the id is gone afterwards and every other record remains |
| Procedures.DeleteIdempotent | server.js:87-90 | deleting the same id twice is the same as deleting it once |
| Procedures.FindAfterPut | server.js:75 | writing a record moves no id already in the store |
| Procedures.StoredAfterPut | server.js:75 | after a write the stored ids are the old ones plus the written one |
| Procedures.FindAfterRemove | server.js:88 | deleting another id shifts a record one place forward exactly when the deleted record came before it |
| Procedures.StoredAfterRemove | server.js:88 | a delete brings no new id into the store |
| Invocation.CheckParam | server.js:101-110 | one parameter fails as missing exactly when it is required and absent; it fails with a type error, naming the declared type, exactly when it is not missing, is present, has a checked type, and its value carries another tag; it passes exactly when it is present if required and, if present with a checked type, its value carries that type's tag |
| Invocation.FunctionBody | server.js:117 | the compiled text is `"use strict"; ` followed by the wrapped snippet, which holds the word `return` and has no white space at its ends |
| Invocation.Validate | server.js:100-111 | validation passes exactly when every declared parameter passes, and a failure is the error of the first failing parameter in declaration order |
| Invocation.ValidateSeesOnlyDeclared | server.js:100-111 | two argument mappings that agree on the declared names get the same verdict |
| Invocation.ExtraArgIgnored | server.js:100-111 | an argument no parameter declares never changes the verdict |
| Invocation.ValidateExamples | server.js:101-107 | for a required number `x`: absent gives missing, the string `"5"` gives a type error, and the number 5 passes |
| Invocation.ValidateFirstFailureWins | server.js:100-111 | a missing first parameter is reported even when a later one has the wrong type |
| Invocation.Invoke | server.js:93-129 | unknown procedure exactly when the id is absent; an argument error is the validation result of the stored record; a success means validation passed, the code returned the value, and the reply copies framework, protocol and method with `ok` true; for a stored record, a validation failure gives that argument error, a thrown error gives the execution error with its message, and a returned value gives the success reply |
| Registry.Apply | server.js:47-130 | reads, invocations and refused requests leave the store unchanged; a list returns the store in order; a delete always succeeds; distinct ids are kept |
| Registry.RunKeepsDistinctIds | server.js:47-90 | no sequence of requests makes two records share an id |
| Registry.StepKeepsOrder | server.js:47-90 | one request that does not create `a` or `b` brings neither back and keeps their relative order |
| Registry.RemovePreservesOrder | server.js:88 | deleting a third record keeps two others in their relative order |
| Registry.RunAppend | server.js:47-130 | running two request sequences one after the other is the same as running their concatenation |
| Registry.FreshCreateListedLast | server.js:62-75 | a record created with a new id is listed after every record already stored |
| Registry.CreatedLaterListedLater | server.js:47-90 | of two records created with new ids, the one created later is listed later, as long as both survive and neither is re-created |
| Registry.RunKeepsOrder | server.js:47-90 | across any sequence of requests, two records listed at the end were there at the start and are listed in the same relative order |
| Metadata.ProtocolsFor | server.js:24-40 | gRPC offers exactly `tcp` then `udp`; every other name, RMI and .NET Remoting included, gets exactly `tcp` |
| ParamEditor.AddParam | public/app.js:80-94 | a blank trimmed name is ignored and a taken name is refused, both leaving the list unchanged; otherwise exactly the new parameter is appended with its trimmed name |
| ParamEditor.RemoveParam | public/app.js:70-74 | removing position `i` deletes exactly that element and keeps the others in order; a position past the end removes nothing |
| ParamEditor.ApplyEditsAppend | public/app.js:70-94 | applying two edit sequences one after the other is the same as applying their concatenation |
| ParamEditor.AddKeepsWellFormed | public/app.js:82-90 | adding keeps names non-empty, trimmed and pairwise distinct |
| ParamEditor.RemoveKeepsWellFormed | public/app.js:70-74 | removing keeps names non-empty, trimmed and pairwise distinct |
| ParamEditor.EditsKeepWellFormed | public/app.js:70-94 | across any sequence of adds and removes, names stay non-empty, trimmed and pairwise distinct |
| InvokeForm.FindParam | public/app.js:185 | the result is a parameter with that name and no earlier one has it; none exactly when no parameter has the name |
| InvokeForm.Coerce | public/app.js:159-163 | a number type gives a number, which is finite exactly when the conversion yields one, with that value; a boolean type gives true exactly for the text `true`; any other type, or none, keeps the text as a string |
| InvokeForm.BuildArgs | public/app.js:179-183 | a build that aborts names a required input that was left empty |
| InvokeForm.BuildArgsAborts | public/app.js:179-183 | the build aborts exactly when some input is required and empty, naming the first such input |
| InvokeForm.BuildArgsKeys | public/app.js:179-188 | a successful build has exactly the names of the non-empty inputs as keys, so empty optional inputs are omitted |
| InvokeForm.BuildArgsValues | public/app.js:184-187 | the value under a name is the coerced text of the last non-empty input with that name, using the first declared type of that name |
| InvokeForm.EmptyInputAbsent | public/app.js:179-188 | with distinct names, an empty input in a successful build is optional and absent from the arguments |
| InvokeForm.FilledInputCoerced | public/app.js:184-187 | with distinct names, a non-empty input yields its own text coerced by its own declared type |
| InvokeForm.SentParamPasses | public/app.js:177-189 | with distinct names, one parameter passes the server's check, after the JSON round trip, exactly unless its input holds text that its number type turns into NaN or an infinity |
| InvokeForm.FormArgsPassValidation | public/app.js:177-189 | with distinct parameter names, the arguments the dialog builds and sends as JSON pass the server's validation exactly when every number input holding text converts to a finite number |
| InvokeForm.NonNumericInputRefused | public/app.js:160 | a required number input holding `abc`, which converts to NaN, is built as a non-finite number, arrives as `null` and is refused with the number type error |

## Left out

- Express plumbing is left out: routing, HTTP status codes, CORS, static files, body parsing, `listen` and the health route. Handler results are `Result` values instead of HTTP responses.
- The bodies of the frameworks and methods endpoints (server.js:32-34, 42-44) are left out. They return constant tables. The framework table appears as the constant `Metadata.FrameworkIds`; the method list is not modelled.
- Executing user code with `new Function` (server.js:117-121) is left out. It is the parameter `exec`, and a thrown error is its `Threw` outcome.
- Registry.Apply: `exec` is a total function with no effect on the server. The real snippet may loop forever and block the server. It may also change globals such as `Map.prototype`, which the store uses at server.js:52, 75 and 88. Neither is modelled.
- Invocation.Invoke: `body` is absent or an object. A truthy `args` that is not an object (`5`, `"abc"`, `true`) makes `p.name in args` throw outside the `try`: at server.js:101 for a required parameter, at server.js:104 for an optional one. A procedure with no declared parameters throws nothing there and runs `fn` with that `args`. Neither case is modelled.
- Procedures.Update: each field in the body is absent or has the type of the record's field. Other JSON values are not modelled: `params: null` makes the invoke loop skip all checks (server.js:100), and `params: 5` makes it throw.
- Metadata.ProtocolsFor: names inherited from `Object.prototype` (`constructor`, `toString`, `__proto__`) find a truthy inherited value at server.js:38, which becomes the reply instead of `['tcp']`. The model treats them as unknown frameworks.
- `uuidv4()` and `new Date().toISOString()` are left out. They are inputs of `Create`.
- Procedures.Create: a freshly generated id is assumed to be new only where the contract says so (`!Stored(s, newId)`). A colliding id overwrites the record in place, as `Map.set` would.
- JavaScript's `in` also sees keys inherited through the prototype chain (server.js:101, 104). Arguments are a plain map, so those keys are not modelled.
- Update bodies may carry keys other than the record's fields (server.js:82). They are not modelled.
- Create fields that are present but not strings (numbers, objects) are not modelled. Each field is absent or a string.
- JavaScript truthiness is modelled only for absent-or-string fields.
- Finite numbers are real numbers, and NaN and the infinities are one value `NonFinite`. Floating-point rounding is not modelled.
- Invocation.Invoke: the returned value is packaged as it is. The reply's own JSON step (`res.json`, server.js:123-129), which writes NaN and the infinities as `null`, is not modelled.
- InvokeForm.Coerce: for a number type it does not say which number a text denotes, because `Number(v)` (public/app.js:160) is floating-point parsing, passed in as `toNumber`.
- InvokeForm.Coerce: the `v === true` disjunct of the boolean branch is not modelled. The only caller passes an input's text, so it cannot fire.
- DOM rendering, dialogs, alerts, `fetch` and timers in public/app.js are left out. The dialog's inputs are the list of `InvokeForm.Field` built by `FieldsFor`.
- ParamEditor.RemoveParam: the index is a natural number. `splice` with a negative index is not modelled, because the button only carries an index it rendered.
- InvokeForm.FormArgsPassValidation: it holds only when parameter names are distinct, and it says nothing about which texts `Number(v)` turns into NaN or an infinity, since that is left to `toNumber`. The server does not enforce that for procedures created through the API with duplicate names.
