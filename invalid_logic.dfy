/** The control-flow checker: `for` loops over `range(...)`, `while` and `if`
    conditions. Only the second (effective) copy of each definition in
    InvalidLogic.py is modelled; the first copy is overridden when the module
    loads. The helper `is_constant_int` is called but never defined in the
    file, so it is a parameter here. */
module InvalidLogic {
  import opened Outcomes
  import opened Ast

  /** A bound of a `range(...)` call as the checker holds it: a Python value
      (the defaults 0 and 1, or the `.n` of a keyword's constant) or an
      argument node passed positionally, which is never a Python `int`. */
  datatype Bound = Value(v: Literal) | ArgNode(node: Node)

  datatype RangeBounds = RangeBounds(start: Bound, stop: Bound, step: Bound)

  datatype LogicError =
    | LoopVariable(target: string, bounds: RangeBounds)
    | InvalidIterable
    | InvalidWhile
    | InvalidIf

  /** `range(...)` called by its bare name. */
  predicate IsRangeIterable(iter: Node)
  {
    iter.Call? && iter.func.Name? && iter.func.id == "range"
  }

  predicate SetsBound(k: Keyword)
  {
    k.arg == Some("start") || k.arg == Some("stop") || k.arg == Some("step")
  }

  /** The value of the last keyword argument called `name`, if there is one. */
  function LastKeywordValue(kws: seq<Keyword>, name: string): Option<Node>
  {
    if kws == [] then None
    else if kws[|kws| - 1].arg == Some(name) then Some(kws[|kws| - 1].value)
    else LastKeywordValue(kws[..|kws| - 1], name)
  }

  /** A later keyword overrides an earlier one: the value found is that of a
      keyword called `name` after which no other keyword is called `name`,
      and nothing is found exactly when no keyword is called `name`. */
  lemma {:induction false} LastKeywordValueIsLast(kws: seq<Keyword>, name: string)
    ensures LastKeywordValue(kws, name).None? <==>
              forall i | 0 <= i < |kws| :: kws[i].arg != Some(name)
    ensures LastKeywordValue(kws, name).Some? ==>
              exists i | 0 <= i < |kws| ::
                && kws[i].arg == Some(name)
                && kws[i].value == LastKeywordValue(kws, name).value
                && forall j | i < j < |kws| :: kws[j].arg != Some(name)
  {
    if kws != [] {
      var n := |kws| - 1;
      LastKeywordValueIsLast(kws[..n], name);
      assert forall i | 0 <= i < n :: kws[..n][i] == kws[i];
      if kws[n].arg != Some(name) && LastKeywordValue(kws, name).Some? {
        var i :| 0 <= i < n && kws[..n][i].arg == Some(name)
                 && kws[..n][i].value == LastKeywordValue(kws, name).value
                 && forall j | i < j < n :: kws[..n][j].arg != Some(name);
        assert kws[i].arg == Some(name);
      }
    }
  }

  /** What `get_range_iterable_values` returns or raises. One to three
      positional arguments give `(0, a0, 1)`, `(a0, a1, 1)` or
      `(a0, a1, a2)`. Otherwise the `start`, `stop` and `step` keywords are
      read: one whose value is not a constant has no `.n` (AttributeError),
      and a bound no keyword sets is an unbound local. */
  function RangeValues(call: Node): (r: Result<RangeBounds>)
    requires call.Call?
  {
    var args, kws := call.args, call.keywords;
    if |args| == 1 then Ok(RangeBounds(Value(IntLit(0)), ArgNode(args[0]), Value(IntLit(1))))
    else if |args| == 2 then Ok(RangeBounds(ArgNode(args[0]), ArgNode(args[1]), Value(IntLit(1))))
    else if |args| == 3 then Ok(RangeBounds(ArgNode(args[0]), ArgNode(args[1]), ArgNode(args[2])))
    else if exists i | 0 <= i < |kws| :: SetsBound(kws[i]) && !kws[i].value.Constant? then
      Fail(AttributeError)
    else
      // every bound keyword holds a constant here, so a bound is missing
      // exactly when no keyword sets it
      var start, stop, step := SeenBound(kws, "start"), SeenBound(kws, "stop"), SeenBound(kws, "step");
      if start.None? || stop.None? || step.None? then Fail(UnboundLocalError)
      else Ok(RangeBounds(Value(start.value), Value(stop.value), Value(step.value)))
  }

  /** The `.n` of the last keyword called `name` among those read so far. */
  function SeenBound(kws: seq<Keyword>, name: string): Option<Literal>
  {
    var v := LastKeywordValue(kws, name);
    if v.Some? && v.value.Constant? then Some(v.value.lit) else None
  }

  lemma SeenBoundStep(kws: seq<Keyword>, i: nat, name: string)
    requires i < |kws|
    ensures kws[..i + 1][..i] == kws[..i]
    ensures SeenBound(kws[..i + 1], name) ==
              if kws[i].arg == Some(name) && kws[i].value.Constant? then Some(kws[i].value.lit)
              else if kws[i].arg == Some(name) then None
              else SeenBound(kws[..i], name)
  {
    assert kws[..i + 1][..i] == kws[..i];
  }

  /** `get_range_iterable_values`: the keyword loop assigns `start`, `stop`
      and `step` as it meets them and raises on the first bound keyword
      whose value is not a constant. */
  method GetRangeIterableValues(call: Node) returns (r: Result<RangeBounds>)
    requires call.Call?
    ensures r == RangeValues(call)
  {
    var args, kws := call.args, call.keywords;
    if |args| == 1 {
      return Ok(RangeBounds(Value(IntLit(0)), ArgNode(args[0]), Value(IntLit(1))));
    } else if |args| == 2 {
      return Ok(RangeBounds(ArgNode(args[0]), ArgNode(args[1]), Value(IntLit(1))));
    } else if |args| == 3 {
      return Ok(RangeBounds(ArgNode(args[0]), ArgNode(args[1]), ArgNode(args[2])));
    }
    var start: Option<Literal> := None;
    var stop: Option<Literal> := None;
    var step: Option<Literal> := None;
    var i := 0;
    while i < |kws|
      invariant 0 <= i <= |kws|
      invariant forall j | 0 <= j < i :: SetsBound(kws[j]) ==> kws[j].value.Constant?
      invariant start == SeenBound(kws[..i], "start")
      invariant stop == SeenBound(kws[..i], "stop")
      invariant step == SeenBound(kws[..i], "step")
    {
      var k := kws[i];
      SeenBoundStep(kws, i, "start");
      SeenBoundStep(kws, i, "stop");
      SeenBoundStep(kws, i, "step");
      if k.arg == Some("start") {
        if !k.value.Constant? { return Fail(AttributeError); }
        start := Some(k.value.lit);
      } else if k.arg == Some("stop") {
        if !k.value.Constant? { return Fail(AttributeError); }
        stop := Some(k.value.lit);
      } else if k.arg == Some("step") {
        if !k.value.Constant? { return Fail(AttributeError); }
        step := Some(k.value.lit);
      }
      i := i + 1;
    }
    assert kws[..i] == kws;
    if start.None? || stop.None? || step.None? {
      return Fail(UnboundLocalError);
    }
    r := Ok(RangeBounds(Value(start.value), Value(stop.value), Value(step.value)));
  }

  predicate IsIntBound(b: Bound) { b.Value? && IsInt(b.v) }

  /** `is_valid_for_range`: a simple loop variable and three Python ints. */
  predicate IsValidForRange(target: Node, b: RangeBounds)
  {
    target.Name? && IsIntBound(b.start) && IsIntBound(b.stop) && IsIntBound(b.step)
  }

  /** A `range` with one to three positional arguments is never a valid loop
      range: its argument nodes are not Python ints. */
  lemma PositionalRangeNeverValid(target: Node, call: Node)
    requires call.Call? && 1 <= |call.args| <= 3
    ensures RangeValues(call).Ok?
    ensures !IsValidForRange(target, RangeValues(call).value)
  {
  }

  /** `is_valid_list_comprehension`. It holds only for a `for` over a
      `range(...)` call with valid bounds. */
  function IsValidListComprehension(node: Node): (r: Result<bool>)
    ensures !node.For? || !IsRangeIterable(node.iter) ==> r == Ok(false)
    ensures r == Ok(true) <==>
              node.For? && IsRangeIterable(node.iter) && RangeValues(node.iter).Ok?
              && IsValidForRange(node.target, RangeValues(node.iter).value)
    ensures r.Fail? <==> node.For? && IsRangeIterable(node.iter) && RangeValues(node.iter).Fail?
    ensures r.Fail? ==> r.error == RangeValues(node.iter).error && r.error in {AttributeError, UnboundLocalError}
  {
    if node.For? && IsRangeIterable(node.iter) then
      match RangeValues(node.iter)
      case Fail(e) => Fail(e)
      case Ok(b) => Ok(IsValidForRange(node.target, b))
    else Ok(false)
  }

  /** `is_invalid_while_condition`. A comparison is valid when its first
      operator is `<=` or `>=` and both its left side and first comparator
      are constant ints; `not c` is as valid as `c`; anything else, an
      `and`/`or` included, reaches the final `return True`. */
  function IsInvalidWhileCondition(c: Node, isConstantInt: Node -> bool): bool
    decreases c
  {
    match c
    case Compare(left, op, right, _) =>
      !((op == LtE || op == GtE) && isConstantInt(left) && isConstantInt(right))
    case BoolOp(op, values) =>
      // the loop over an `and` returns True early or runs out and falls
      // through to the final `return True`
      if op == And then WhileAndLoop(values, c, isConstantInt).GetOr(true) else true
    case UnaryOp(op, operand) =>
      if op == Not then IsInvalidWhileCondition(operand, isConstantInt) else true
    case _ => true
  }

  /** The loop over the operands of an `and`: `Some(true)` when it returns
      early, `None` when it runs to its end. */
  function WhileAndLoop(values: seq<Node>, ghost parent: Node, isConstantInt: Node -> bool): Option<bool>
    requires forall v | v in values :: v < parent
    decreases parent, |values|
  {
    if values == [] then None
    else
      assert values[0] in values;
      assert forall v | v in values[1..] :: v in values;
      if IsInvalidWhileCondition(values[0], isConstantInt) then Some(true)
      else WhileAndLoop(values[1..], parent, isConstantInt)
  }

  /** `is_invalid_if_condition`: a second copy of the while classifier. */
  function IsInvalidIfCondition(c: Node, isConstantInt: Node -> bool): bool
    decreases c
  {
    match c
    case Compare(left, op, right, _) =>
      !((op == LtE || op == GtE) && isConstantInt(left) && isConstantInt(right))
    case BoolOp(op, values) =>
      if op == And then IfAndLoop(values, c, isConstantInt).GetOr(true) else true
    case UnaryOp(op, operand) =>
      if op == Not then IsInvalidIfCondition(operand, isConstantInt) else true
    case _ => true
  }

  function IfAndLoop(values: seq<Node>, ghost parent: Node, isConstantInt: Node -> bool): Option<bool>
    requires forall v | v in values :: v < parent
    decreases parent, |values|
  {
    if values == [] then None
    else
      assert values[0] in values;
      assert forall v | v in values[1..] :: v in values;
      if IsInvalidIfCondition(values[0], isConstantInt) then Some(true)
      else IfAndLoop(values[1..], parent, isConstantInt)
  }

  lemma {:induction false} WhileAndLoopNeverValid(values: seq<Node>, parent: Node, isConstantInt: Node -> bool)
    requires forall v | v in values :: v < parent
    ensures WhileAndLoop(values, parent, isConstantInt) != Some(false)
    decreases |values|
  {
    if values != [] {
      assert forall v | v in values[1..] :: v in values;
      WhileAndLoopNeverValid(values[1..], parent, isConstantInt);
    }
  }

  lemma {:induction false} IfAndLoopNeverValid(values: seq<Node>, parent: Node, isConstantInt: Node -> bool)
    requires forall v | v in values :: v < parent
    ensures IfAndLoop(values, parent, isConstantInt) != Some(false)
    decreases |values|
  {
    if values != [] {
      assert forall v | v in values[1..] :: v in values;
      IfAndLoopNeverValid(values[1..], parent, isConstantInt);
    }
  }

  /** Every `and`/`or` condition is invalid, even an `and` whose operands
      are all valid: the loop only ever returns True, and running out of
      operands falls through to `return True`. */
  lemma BoolOpAlwaysInvalid(c: Node, isConstantInt: Node -> bool)
    requires c.BoolOp?
    ensures IsInvalidWhileCondition(c, isConstantInt)
    ensures IsInvalidIfCondition(c, isConstantInt)
  {
    WhileAndLoopNeverValid(c.values, c, isConstantInt);
    IfAndLoopNeverValid(c.values, c, isConstantInt);
  }

  /** The valid conditions, stated on their own: a `<=`/`>=` comparison of
      two constant ints under any number of `not`s. Later operators and
      comparators of a chained comparison play no part. */
  predicate ValidCondition(c: Node, isConstantInt: Node -> bool)
    decreases c
  {
    || (c.Compare? && (c.firstOp == LtE || c.firstOp == GtE)
        && isConstantInt(c.left) && isConstantInt(c.right))
    || (c.UnaryOp? && c.unaryop == Not && ValidCondition(c.operand, isConstantInt))
  }

  /** A condition is invalid for `while` exactly when it is not one of the
      valid conditions. */
  lemma {:induction false} WhileConditionMeaning(c: Node, isConstantInt: Node -> bool)
    ensures IsInvalidWhileCondition(c, isConstantInt) <==> !ValidCondition(c, isConstantInt)
    decreases c
  {
    match c
    case BoolOp(_, _) => BoolOpAlwaysInvalid(c, isConstantInt);
    case UnaryOp(op, operand) => WhileConditionMeaning(operand, isConstantInt);
    case _ =>
  }

  /** The `while` and `if` classifiers agree on every condition. */
  lemma {:induction false} WhileAndIfAgree(c: Node, isConstantInt: Node -> bool)
    ensures IsInvalidWhileCondition(c, isConstantInt) == IsInvalidIfCondition(c, isConstantInt)
    decreases c
  {
    match c
    case BoolOp(_, _) => BoolOpAlwaysInvalid(c, isConstantInt);
    case UnaryOp(op, operand) => WhileAndIfAgree(operand, isConstantInt);
    case _ =>
  }

  /** `audit_logical_errors`: the errors list for one node. A `for` over
      `range(...)` is checked by its bounds, and its error message reads the
      target's `id` (AttributeError when the target is not a name); a `for`
      over anything else is an invalid iterable, since the list-comprehension
      test also demands a `range` call; `while` and `if` are checked by their
      condition; every other node gives no error. */
  method AuditLogicalErrors(node: Node, isConstantInt: Node -> bool) returns (r: Result<seq<LogicError>>)
    ensures r.Ok? ==> |r.value| <= 1
    ensures !node.For? && !node.While? && !node.If? ==> r == Ok([])
    ensures node.While? ==>
              r == Ok(if IsInvalidWhileCondition(node.test, isConstantInt) then [InvalidWhile] else [])
    ensures node.If? ==>
              r == Ok(if IsInvalidIfCondition(node.test, isConstantInt) then [InvalidIf] else [])
    ensures node.For? && !IsRangeIterable(node.iter) ==> r == Ok([InvalidIterable])
    ensures node.For? && IsRangeIterable(node.iter) && RangeValues(node.iter).Fail? ==>
              r == Fail(RangeValues(node.iter).error)
    ensures node.For? && IsRangeIterable(node.iter) && RangeValues(node.iter).Ok? ==>
              var b := RangeValues(node.iter).value;
              r == if IsValidForRange(node.target, b) then Ok([])
                   else if node.target.Name? then Ok([LoopVariable(node.target.id, b)])
                   else Fail(AttributeError)
  {
    var errors: seq<LogicError> := [];
    if node.For? {
      if IsRangeIterable(node.iter) {
        var target := node.target;
        var bounds := GetRangeIterableValues(node.iter);
        if bounds.Fail? {
          return Fail(bounds.error);
        }
        if !IsValidForRange(target, bounds.value) {
          if !target.Name? {
            return Fail(AttributeError);
          }
          errors := errors + [LoopVariable(target.id, bounds.value)];
          assert errors == [LoopVariable(target.id, bounds.value)];
        }
      } else {
        // not a `range` call, so the list-comprehension test is Ok(false)
        var comprehension := IsValidListComprehension(node);
        if comprehension != Ok(true) {
          errors := errors + [InvalidIterable];
          assert errors == [InvalidIterable];
        }
      }
    } else if node.While? {
      if IsInvalidWhileCondition(node.test, isConstantInt) {
        errors := errors + [InvalidWhile];
          assert errors == [InvalidWhile];
      }
    } else if node.If? {
      if IsInvalidIfCondition(node.test, isConstantInt) {
        errors := errors + [InvalidIf];
          assert errors == [InvalidIf];
      }
    }
    r := Ok(errors);
  }
}
