/** The output-validation checker: the returned value of a function with a
    built-in return annotation, checked against that annotation. */
module OutputValidation {
  import opened Outcomes
  import opened Ast

  /** "`fn` should return <expected>", or one of the two range warnings. */
  datatype OutputWarning =
    | WrongType(fn: string, expected: string)
    | IntOutOfRange(fn: string)
    | FloatOutOfRange(fn: string)

  const IntMin: int := -2147483648
  const IntMax: int := 2147483647

  /** The double nearest to `3.4028235e38`, the bound the float check
      compares with, written out exactly. */
  const FloatMax: real := 340282349999999991754788743781432688640.0
  const FloatMin: real := -FloatMax

  /** The annotations the return dispatch looks at. */
  const CheckedAnnotations: set<string> := {"int", "float", "str", "bool"}

  /** The types `validate_type` knows. */
  const KnownTypes: set<string> := {"int", "float", "str", "bool", "list", "tuple", "dict"}

  /** The value of an int constant; a `bool` is an int. */
  function IntValue(v: Literal): int
    requires IsInt(v)
  {
    if v.IntLit? then v.i else if v.b then 1 else 0
  }

  /** What a constant of each checked type must be, stated independently
      of the branch structure: an int in the signed 32-bit range, a float
      in the single-precision range, a string, a bool; any other expected
      type accepts everything. */
  predicate Conforms(v: Literal, expected: string)
  {
    match expected
    case "int" => IsInt(v) && IntMin <= IntValue(v) <= IntMax
    case "float" => v.FloatLit? && FloatMin <= v.f <= FloatMax
    case "str" => v.StrLit?
    case "bool" => v.BoolLit?
    case _ => true
  }

  /** `validate_constant`: at most one warning, none exactly when the
      constant conforms; an int or a float out of range gets its range
      warning, any other mismatch the type warning. */
  function ValidateConstant(v: Literal, expected: string, fn: string): (r: seq<OutputWarning>)
    ensures |r| <= 1
    ensures r == [] <==> Conforms(v, expected)
    ensures r == [IntOutOfRange(fn)] <==> expected == "int" && IsInt(v) && !(IntMin <= IntValue(v) <= IntMax)
    ensures r == [FloatOutOfRange(fn)] <==> expected == "float" && v.FloatLit? && !(FloatMin <= v.f <= FloatMax)
    ensures r != [] && r != [IntOutOfRange(fn)] && r != [FloatOutOfRange(fn)] ==> r == [WrongType(fn, expected)]
  {
    if expected == "int" then
      if !IsInt(v) then [WrongType(fn, "int")]
      else if IntValue(v) < IntMin || IntValue(v) > IntMax then [IntOutOfRange(fn)]
      else []
    else if expected == "float" then
      if !v.FloatLit? then [WrongType(fn, "float")]
      else if v.f < FloatMin || v.f > FloatMax then [FloatOutOfRange(fn)]
      else []
    else if expected == "str" then
      if !v.StrLit? then [WrongType(fn, "str")] else []
    else if expected == "bool" then
      if !v.BoolLit? then [WrongType(fn, "bool")] else []
    else []
  }

  /** `validate_type`: the named type must be the expected one, for the
      seven known types; any other expected type gives nothing. */
  function ValidateType(valueName: string, expected: string, fn: string): (r: seq<OutputWarning>)
    ensures |r| <= 1
    ensures r != [] <==> expected in KnownTypes && valueName != expected
    ensures r != [] ==> r == [WrongType(fn, expected)]
  {
    if expected in KnownTypes && valueName != expected then [WrongType(fn, expected)] else []
  }

  /** The annotation a `return` dispatches on, when it is one of the four
      built-in names. */
  function CheckedAnnotation(ann: Option<Node>): Option<string>
  {
    if ann.Some? && ann.value.Name? && ann.value.id in CheckedAnnotations then Some(ann.value.id) else None
  }

  /** One operand of a sum: validated when it is a constant, skipped
      otherwise. */
  function OperandWarnings(arg: Node, expected: string, fn: string): (r: seq<OutputWarning>)
    ensures r == [] <==> !arg.Constant? || Conforms(arg.lit, expected)
  {
    if arg.Constant? then ValidateConstant(arg.lit, expected, fn) else []
  }

  /** `x == c`: a single equality test. */
  predicate IsEqualityTest(value: Node)
  {
    value.Compare? && value.more == [] && value.firstOp == Eq
  }

  /** `type(x)` for a plain name `x`. */
  predicate IsTypeCall(value: Node)
  {
    value.Call? && value.func == Name("type") && |value.args| == 1 && value.args[0].Name?
  }

  /** The checks on one statement of a function body. Only a `return` with
      a value is looked at, and only when reading the value's annotation
      succeeds and gives one of the four built-in names: a constant is
      validated; a sum validates each constant operand; an equality test
      of the first parameter against a constant validates the constant
      (IndexError when the function has no parameter); a `type(x)` call
      validates the name `x`. `annotationOf` is the read of the returned
      expression's `annotation` attribute. */
  function ReturnCheck(fn: string, params: seq<string>, stmt: Node, annotationOf: Node -> Result<Option<Node>>)
    : (r: Report<OutputWarning>)
    ensures !stmt.Return? || stmt.retValue.None? ==> r == Nothing()
    ensures stmt.Return? && stmt.retValue.Some? && annotationOf(stmt.retValue.value).Fail? ==>
              r == Abort(annotationOf(stmt.retValue.value).error)
    ensures stmt.Return? && stmt.retValue.Some? && annotationOf(stmt.retValue.value).Ok? ==>
              var value, expected := stmt.retValue.value, CheckedAnnotation(annotationOf(stmt.retValue.value).value);
              && (expected.None? ==> r == Nothing())
              && (expected.Some? && value.Constant? ==>
                    r == Report(ValidateConstant(value.lit, expected.value, fn), None)
                    && (r.out == [] <==> Conforms(value.lit, expected.value)))
              && (expected.Some? && value.BinOp? && value.binop == Add ==>
                    && r == Report(OperandWarnings(value.left, expected.value, fn)
                                   + OperandWarnings(value.right, expected.value, fn), None)
                    && (r.out == [] <==>
                          (value.left.Constant? ==> Conforms(value.left.lit, expected.value))
                          && (value.right.Constant? ==> Conforms(value.right.lit, expected.value))))
              && (expected.Some? && IsEqualityTest(value) ==>
                    && (!value.left.Name? ==> r == Nothing())
                    && (value.left.Name? && params == [] ==> r == Abort(IndexError))
                    && (value.left.Name? && params != [] ==>
                          if value.left.id == params[0] && value.right.Constant?
                          then r == Report(ValidateConstant(value.right.lit, expected.value, fn), None)
                          else r == Nothing()))
              && (expected.Some? && IsTypeCall(value) ==>
                    r == Report(ValidateType(value.args[0].id, expected.value, fn), None)
                    && (r.out == [] <==> value.args[0].id == expected.value))
              && ((!value.Constant? && !(value.BinOp? && value.binop == Add) && !IsEqualityTest(value)
                   && !IsTypeCall(value)) ==> r == Nothing())
    ensures forall w | w in r.out :: w.WrongType? ==> w.expected in CheckedAnnotations
    ensures |r.out| <= 2
  {
    if !stmt.Return? || stmt.retValue.None? then Nothing()
    else
      var value := stmt.retValue.value;
      match annotationOf(value)
      case Fail(e) => Abort(e)
      case Ok(ann) =>
        match CheckedAnnotation(ann)
        case None => Nothing()
        case Some(expected) =>
          if value.Constant? then Report(ValidateConstant(value.lit, expected, fn), None)
          else if value.BinOp? && value.binop == Add then
            Report(OperandWarnings(value.left, expected, fn) + OperandWarnings(value.right, expected, fn), None)
          else if IsEqualityTest(value) then
            if !value.left.Name? then Nothing()
            else if params == [] then Abort(IndexError)
            else if value.left.id == params[0] && value.right.Constant? then
              Report(ValidateConstant(value.right.lit, expected, fn), None)
            else Nothing()
          else if IsTypeCall(value) then
            Report(ValidateType(value.args[0].id, expected, fn), None)
          else Nothing()
  }

  /** A statement the check gets through without raising: not a `return`
      with a value, or one whose annotation read succeeds and, for a
      checked annotation and an equality test of a name, in a function
      with at least one parameter. */
  predicate ReturnReadable(params: seq<string>, stmt: Node, annotationOf: Node -> Result<Option<Node>>)
  {
    stmt.Return? && stmt.retValue.Some? ==>
      var value := stmt.retValue.value;
      annotationOf(value).Ok?
      && ((CheckedAnnotation(annotationOf(value).value).Some? && !value.Constant?
           && !(value.BinOp? && value.binop == Add) && IsEqualityTest(value) && value.left.Name?) ==> params != [])
  }

  /** Every warning the check of a statement of `body` prints is in `out`. */
  predicate ReportsReturns(fn: string, params: seq<string>, body: seq<Node>, annotationOf: Node -> Result<Option<Node>>,
                           out: seq<OutputWarning>)
  {
    forall i, w | 0 <= i < |body| && w in ReturnCheck(fn, params, body[i], annotationOf).out :: w in out
  }

  /** `audit_output_validation`: the direct-body statements of a function
      definition. It finishes exactly when every statement is readable, and
      then it prints every warning of every `return` and nothing else. */
  function AuditOutputValidation(node: Node, annotationOf: Node -> Result<Option<Node>>): (r: Report<OutputWarning>)
    ensures !node.FunctionDef? ==> r == Nothing()
    ensures node.FunctionDef? ==> forall w | w in r.out :: FromReturn(node.name, node.params, node.body, annotationOf, w)
    ensures node.FunctionDef? ==>
              (r.Finished() <==> forall i | 0 <= i < |node.body| :: ReturnReadable(node.params, node.body[i], annotationOf))
    ensures node.FunctionDef? && r.Finished() ==> ReportsReturns(node.name, node.params, node.body, annotationOf, r.out)
  {
    if node.FunctionDef? then
      var r := ForEach(node.body, (s: Node) => ReturnCheck(node.name, node.params, s, annotationOf));
      assert forall w | w in r.out :: FromReturn(node.name, node.params, node.body, annotationOf, w) by {
        forall w | w in r.out ensures FromReturn(node.name, node.params, node.body, annotationOf, w) {
          var i :| 0 <= i < |node.body| && w in ReturnCheck(node.name, node.params, node.body[i], annotationOf).out;
          assert node.body[i].Return?;
        }
      }
      forall i | 0 <= i < |node.body|
        ensures ReturnCheck(node.name, node.params, node.body[i], annotationOf).Finished()
                <==> ReturnReadable(node.params, node.body[i], annotationOf)
      {
        ReturnCheckFinishes(node.name, node.params, node.body[i], annotationOf);
      }
      r
    else Nothing()
  }

  /** The check of one statement raises exactly when it is not readable. */
  lemma ReturnCheckFinishes(fn: string, params: seq<string>, stmt: Node, annotationOf: Node -> Result<Option<Node>>)
    ensures ReturnCheck(fn, params, stmt, annotationOf).Finished() <==> ReturnReadable(params, stmt, annotationOf)
  {
  }

  /** `w` is printed by the check of one of the `return` statements of
      `body`. */
  predicate FromReturn(fn: string, params: seq<string>, body: seq<Node>, annotationOf: Node -> Result<Option<Node>>,
                       w: OutputWarning)
  {
    exists i | 0 <= i < |body| :: body[i].Return? && w in ReturnCheck(fn, params, body[i], annotationOf).out
  }

  /** `True` is an int, so it satisfies an `int` annotation; `2**31` does
      not fit and `"1"` is not an int. */
  lemma IntAnnotationExamples(fn: string)
    ensures ValidateConstant(BoolLit(true), "int", fn) == []
    ensures ValidateConstant(IntLit(2147483648), "int", fn) == [IntOutOfRange(fn)]
    ensures ValidateConstant(IntLit(-2147483648), "int", fn) == []
    ensures ValidateConstant(StrLit("1"), "int", fn) == [WrongType(fn, "int")]
  {
  }

  /** A float of `1e38` is in range; `3.5e38` is out of range, and an int
      is no float. */
  lemma FloatAnnotationExamples(fn: string)
    ensures ValidateConstant(FloatLit(1e38), "float", fn) == []
    ensures ValidateConstant(FloatLit(3.5e38), "float", fn) == [FloatOutOfRange(fn)]
    ensures ValidateConstant(IntLit(1), "float", fn) == [WrongType(fn, "float")]
  {
  }

  /** No expression node of Python's own parser has an `annotation`
      attribute, so the read raises AttributeError for every returned
      value: the check then prints nothing, and it stops exactly when the
      body has a `return` with a value. */
  lemma StockNodesStopTheCheck(node: Node, annotationOf: Node -> Result<Option<Node>>)
    requires node.FunctionDef?
    requires forall x :: annotationOf(x) == Fail(AttributeError)
    ensures AuditOutputValidation(node, annotationOf).out == []
    ensures AuditOutputValidation(node, annotationOf).Finished() <==>
              forall i | 0 <= i < |node.body| :: !(node.body[i].Return? && node.body[i].retValue.Some?)
  {
    var f := (s: Node) => ReturnCheck(node.name, node.params, s, annotationOf);
    forall i | 0 <= i < |node.body|
      ensures f(node.body[i]).out == []
      ensures f(node.body[i]).Finished() <==> !(node.body[i].Return? && node.body[i].retValue.Some?)
    {
      var s := node.body[i];
      if s.Return? && s.retValue.Some? {
        assert annotationOf(s.retValue.value) == Fail(AttributeError);
      }
    }
    assert AuditOutputValidation(node, annotationOf) == ForEach(node.body, f);
  }
}
