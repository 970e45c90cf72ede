/** `wrapImplementation`: how the server turns a stored snippet into the body
    of the function it runs. The snippet is trimmed and matched against two
    regular expressions: a three-way alternation for a function literal,
    then a word-bounded `return`. */
module Implementation {
  import opened JsText

  /** `^function\s*\(` */
  predicate KeywordFunctionShape(t: string) {
    && |t| >= 8 && t[..8] == "function"
    && exists k :: 8 <= k < |t| && AllSpace(t[8..k]) && t[k] == '('
  }

  /** `^\(.*\)\s*=>`: an opening parenthesis, a closing one on the same
      line, optional white space and an arrow. */
  predicate ArrowShape(t: string) {
    && |t| >= 1 && t[0] == '('
    && exists j, k :: 1 <= j < k <= |t| - 2 && ArrowAt(t, j, k)
  }

  /** The `.*` of `ArrowShape` ends before `j`, the closing parenthesis is at
      `j` and the arrow at `k`. */
  predicate ArrowAt(t: string, j: int, k: int)
    requires 1 <= j < k <= |t| - 2
  {
    NoLineTerminator(t[1..j]) && t[j] == ')' && AllSpace(t[j + 1..k]) && t[k..k + 2] == "=>"
  }

  /** `^async\s+function` */
  predicate AsyncShape(t: string) {
    && |t| >= 5 && t[..5] == "async"
    && exists k :: 5 < k <= |t| - 8 && AllSpace(t[5..k]) && t[k..k + 8] == "function"
  }

  /** The function-literal test of `wrapImplementation`. */
  predicate LooksLikeFunction(t: string) {
    KeywordFunctionShape(t) || ArrowShape(t) || AsyncShape(t)
  }

  /** `return` at position `i` with a `\b` word boundary on both sides. */
  predicate ReturnWordAt(t: string, i: int) {
    && 0 <= i <= |t| - 6 && t[i..i + 6] == "return"
    && (i == 0 || !IsWordChar(t[i - 1]))
    && (i + 6 == |t| || !IsWordChar(t[i + 6]))
  }

  /** `/\breturn\b/.test(t)` */
  predicate HasReturnWord(t: string) {
    exists i :: 0 <= i <= |t| - 6 && ReturnWordAt(t, i)
  }

  /** Every function-literal shape starts with `f`, `(` or `a`. */
  lemma FunctionShapeStart(t: string)
    requires LooksLikeFunction(t)
    ensures |t| > 0 && (t[0] == 'f' || t[0] == '(' || t[0] == 'a')
    ensures t[0] == 'a' ==> |t| > 1 && t[1] == 's'
  {
    if KeywordFunctionShape(t) {
      assert t[..8][0] == t[0];
    } else if AsyncShape(t) {
      assert t[..5][0] == t[0] && t[..5][1] == t[1];
    }
  }

  /** A text that starts with `return` and a space and ends with `;` holds
      the word `return`, has no white space at its ends and is no function
      literal. */
  lemma ReturnStatement(r: string)
    requires |r| >= 7 && r[..7] == "return " && r[|r| - 1] == ';'
    ensures HasReturnWord(r) && IsTrimmed(r) && !LooksLikeFunction(r)
  {
    assert r[0..6] == r[..7][..6];
    assert r[6] == r[..7][6];
    assert ReturnWordAt(r, 0);
    assert r[0] == r[..7][0];
    if LooksLikeFunction(r) {
      FunctionShapeStart(r);
    }
  }

  /** The wrapping of a function literal. */
  lemma CalledShape(t: string)
    ensures var r := "return (" + t + ")(args);";
      HasReturnWord(r) && IsTrimmed(r) && !LooksLikeFunction(r)
  {
    var r := "return (" + t + ")(args);";
    assert r[..7] == "return ";
    ReturnStatement(r);
  }

  /** The wrapping of an expression. */
  lemma ReturnedExpressionShape(t: string)
    ensures var r := "return (" + t + ");";
      HasReturnWord(r) && IsTrimmed(r) && !LooksLikeFunction(r)
  {
    var r := "return (" + t + ");";
    assert r[..7] == "return ";
    ReturnStatement(r);
  }

  /** `wrapImplementation`: a function literal is called with `args`; a
      statement block with a `return` is used as is; anything else is
      returned as an expression. The result always returns something and
      has no white space at its ends. */
  function Wrap(impl: string): (r: string)
    ensures HasReturnWord(r)
    ensures IsTrimmed(r)
  {
    var t := Trim(impl);
    if LooksLikeFunction(t) then
      CalledShape(t);
      "return (" + t + ")(args);"
    else if HasReturnWord(t) then
      t
    else
      ReturnedExpressionShape(t);
      "return (" + t + ");"
  }

  /** Wrapping a wrapped snippet changes nothing. */
  lemma WrapIdempotent(impl: string)
    ensures Wrap(Wrap(impl)) == Wrap(impl)
  {
    var t := Trim(impl);
    var r := Wrap(impl);
    TrimOfTrimmed(r);
    if LooksLikeFunction(t) {
      CalledShape(t);
    } else if !HasReturnWord(t) {
      ReturnedExpressionShape(t);
    }
  }

  /** White space around a snippet does not change its wrapping. */
  lemma WrapIgnoresPadding(pre: string, impl: string, post: string)
    requires AllSpace(pre) && AllSpace(post)
    ensures Wrap(pre + impl + post) == Wrap(impl)
  {
    TrimIgnoresPadding(pre, impl, post);
  }

  /** A trimmed function literal is called with `args`. */
  lemma WrapFunctionLiteral(t: string)
    requires IsTrimmed(t) && LooksLikeFunction(t)
    ensures Wrap(t) == "return (" + t + ")(args);"
  {
    TrimOfTrimmed(t);
  }

  /** A trimmed statement block holding `return` is used as is. */
  lemma WrapStatementBlock(t: string)
    requires IsTrimmed(t) && !LooksLikeFunction(t) && HasReturnWord(t)
    ensures Wrap(t) == t
  {
    TrimOfTrimmed(t);
  }

  /** Any other trimmed text is returned as an expression. */
  lemma WrapExpression(t: string)
    requires IsTrimmed(t) && !LooksLikeFunction(t) && !HasReturnWord(t)
    ensures Wrap(t) == "return (" + t + ");"
  {
    TrimOfTrimmed(t);
  }

  /** A text in which no `r` is followed by `e` holds no `return`. */
  lemma NoReturnWord(t: string)
    requires forall i :: 0 <= i < |t| - 1 ==> t[i] != 'r' || t[i + 1] != 'e'
    ensures !HasReturnWord(t)
  {
    forall i | 0 <= i <= |t| - 6 ensures !ReturnWordAt(t, i) {
      assert t[i..i + 6][0] == t[i] && t[i..i + 6][1] == t[i + 1];
    }
  }

  /** A text that starts with none of `f`, `(`, `as` is no function literal. */
  lemma NotFunctionLiteral(t: string)
    requires |t| == 0 || (t[0] != 'f' && t[0] != '(' && (t[0] != 'a' || |t| == 1 || t[1] != 's'))
    ensures !LooksLikeFunction(t)
  {
    if LooksLikeFunction(t) {
      FunctionShapeStart(t);
    }
  }

  /** A body with an explicit `return` is used as written. */
  lemma WrapExampleBlock()
    ensures Wrap("return args.x + 1;") == "return args.x + 1;"
  {
    var t := "return args.x + 1;";
    assert t[..7] == "return " && t[|t| - 1] == ';';
    ReturnStatement(t);
    WrapStatementBlock(t);
  }

  /** `args.x + 1` is trimmed and holds no function literal and no `return`. */
  lemma ExpressionShape(t: string)
    requires t == "args.x + 1"
    ensures IsTrimmed(t) && !LooksLikeFunction(t) && !HasReturnWord(t)
  {
    assert t[0] == 'a' && t[|t| - 1] == '1';
    NotFunctionLiteral(t);
    assert forall i :: 0 <= i < |t| - 1 ==> t[i] != 'r' || t[i + 1] != 'e' by {
      assert t[0] == 'a' && t[1] == 'r' && t[2] == 'g' && t[3] == 's' && t[4] == '.';
      assert t[5] == 'x' && t[6] == ' ' && t[7] == '+' && t[8] == ' ';
    }
    NoReturnWord(t);
  }

  /** An expression is returned: the implicit-return form of the block above,
      whatever white space surrounds it. */
  lemma WrapExampleExpression()
    ensures Wrap("  args.x + 1\n") == "return (" + "args.x + 1" + ");"
  {
    var t := "args.x + 1";
    assert "  args.x + 1\n" == "  " + t + "\n";
    assert AllSpace("  ") && AllSpace("\n");
    WrapIgnoresPadding("  ", t, "\n");
    ExpressionShape(t);
    WrapExpression(t);
  }

  /** `returned` is trimmed and holds no function literal and no whole `return`. */
  lemma ReturnedShape(t: string)
    requires t == "returned"
    ensures IsTrimmed(t) && !LooksLikeFunction(t) && !HasReturnWord(t)
  {
    assert t[0] == 'r' && t[1] == 'e' && t[2] == 't' && t[6] == 'e' && t[7] == 'd';
    NotFunctionLiteral(t);
    assert !ReturnWordAt(t, 0) && !ReturnWordAt(t, 1) && !ReturnWordAt(t, 2);
  }

  /** `\b` is a word boundary: `returned` is not the word `return`. */
  lemma WrapExampleWordBoundary()
    ensures Wrap("returned") == "return (" + "returned" + ");"
  {
    ReturnedShape("returned");
    WrapExpression("returned");
  }

  /** `return` between two non-word characters, or at an end, is the word. */
  lemma ReturnBetween(a: string, b: string)
    requires |a| == 0 || !IsWordChar(a[|a| - 1])
    requires |b| == 0 || !IsWordChar(b[0])
    ensures HasReturnWord(a + "return" + b)
  {
    var t := a + "return" + b;
    assert t[|a|..|a| + 6] == "return";
    assert |a| > 0 ==> t[|a| - 1] == a[|a| - 1];
    assert |b| > 0 ==> t[|a| + 6] == b[0];
    assert ReturnWordAt(t, |a|);
  }

  /** A parenthesised line, optional white space and an arrow open an arrow function. */
  lemma ArrowOf(inner: string, sp: string, rest: string)
    requires NoLineTerminator(inner) && AllSpace(sp)
    ensures ArrowShape("(" + inner + ")" + sp + "=>" + rest)
  {
    var t := "(" + inner + ")" + sp + "=>" + rest;
    var j := 1 + |inner|;
    var k := j + 1 + |sp|;
    assert t[1..j] == inner && t[j] == ')';
    assert t[j + 1..k] == sp && t[k..k + 2] == "=>";
    assert ArrowAt(t, j, k);
  }

  /** The arrow function below also holds the word `return`. */
  lemma ArrowReturnExample(t: string)
    requires t == "(args) => { return args.x * 2; }"
    ensures HasReturnWord(t)
  {
    assert t == "(args) => { " + "return" + " args.x * 2; }";
    ReturnBetween("(args) => { ", " args.x * 2; }");
  }

  /** The arrow function below, cut at its parentheses and its arrow. */
  lemma ArrowPieces(t: string)
    requires t == "(args) => { return args.x * 2; }"
    ensures t == "(" + "args" + ")" + " " + "=>" + " { return args.x * 2; }"
  {
  }

  /** The arrow function below is trimmed and matches `^\(.*\)\s*=>`. */
  lemma ArrowShapeExample(t: string)
    requires t == "(args) => { return args.x * 2; }"
    ensures IsTrimmed(t) && LooksLikeFunction(t)
  {
    ArrowPieces(t);
    assert NoLineTerminator("args");
    assert AllSpace(" ");
    ArrowOf("args", " ", " { return args.x * 2; }");
    assert t[0] == '(' && t[|t| - 1] == '}';
  }

  /** The function-literal test comes first: an arrow function whose body
      holds `return` is still called with `args`. */
  lemma WrapExampleArrow()
    ensures HasReturnWord("(args) => { return args.x * 2; }")
    ensures Wrap("(args) => { return args.x * 2; }")
         == "return (" + "(args) => { return args.x * 2; }" + ")(args);"
  {
    ArrowShapeExample("(args) => { return args.x * 2; }");
    ArrowReturnExample("(args) => { return args.x * 2; }");
    WrapFunctionLiteral("(args) => { return args.x * 2; }");
  }

  /** An empty snippet becomes `return ();`, text that does not compile. */
  lemma WrapExampleEmpty()
    ensures Wrap("") == "return ();"
  {
    TrimOfTrimmed("");
    NotFunctionLiteral("");
    assert !HasReturnWord("");
    assert "return (" + "" + ");" == "return ();";
  }
}
