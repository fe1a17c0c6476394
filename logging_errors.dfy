/** The error-handling and logging checker: `try` statements of a function's
    body, calls on the `logging` module, `print` calls and `assert`
    statements. */
module LoggingErrors {
  import opened Outcomes
  import opened Strings
  import opened Ast

  /** `NoExceptionHandler` and `NoLoggingCall` print the same text, a
      `try` block without logging; they are told apart here. */
  datatype LogWarning =
    | NoExceptionHandler(fn: string)
    | NoLoggingCall(fn: string)
    | CatchesAll(fn: string)
    | DeprecatedLogging(fn: string, attr: string)
    | NoLogLevel(fn: string)
    | PrintInsteadOfLogging(fn: string)
    | AssertUsed(fn: string)

  const LogLevels: seq<string> := ["DEBUG", "INFO", "WARNING", "ERROR", "CRITICAL"]

  const DeprecatedFunctions: seq<string> := ["warn", "fatal", "captureWarnings"]

  /** An `except Exception:` clause: the handler's type is the plain name. */
  predicate HandlesException(h: Handler)
  {
    h.htype.Some? && h.htype.value == Name("Exception")
  }

  /** A call of an attribute whose name starts with `log`. */
  predicate IsLogCall(e: Node)
  {
    e.Call? && e.func.Attribute? && StartsWith(e.func.attr, "log")
  }

  /** Some statement of `stmts` holds a logging call somewhere inside. */
  predicate HasLogCall(stmts: seq<Node>)
  {
    exists i, e | 0 <= i < |stmts| && e in Walk(stmts[i]) :: IsLogCall(e)
  }

  /** The three rules on one `try` statement, each an independent `if`:
      no handler for `Exception`, no logging call in the guarded block,
      and every handler for `Exception`. */
  function TryCheck(fn: string, t: Node): (r: Report<LogWarning>)
    requires t.Try?
    ensures r.Finished() && |r.out| <= 3
    ensures NoExceptionHandler(fn) in r.out <==> !exists h | h in t.handlers :: HandlesException(h)
    ensures NoLoggingCall(fn) in r.out <==> !HasLogCall(t.body)
    ensures CatchesAll(fn) in r.out <==> forall h | h in t.handlers :: HandlesException(h)
    ensures forall w | w in r.out :: w in [NoExceptionHandler(fn), NoLoggingCall(fn), CatchesAll(fn)]
  {
    var noHandler := if !exists h | h in t.handlers :: HandlesException(h) then [NoExceptionHandler(fn)] else [];
    var noLogging := if !HasLogCall(t.body) then [NoLoggingCall(fn)] else [];
    var catchesAll := if forall h | h in t.handlers :: HandlesException(h) then [CatchesAll(fn)] else [];
    Report(noHandler + noLogging + catchesAll, None)
  }

  /** With no handler at all, `any` is false and `all` is true, so both
      handler warnings fire; with at least one handler they exclude each
      other. */
  lemma HandlerWarnings(fn: string, t: Node)
    requires t.Try?
    ensures t.handlers == [] ==> NoExceptionHandler(fn) in TryCheck(fn, t).out && CatchesAll(fn) in TryCheck(fn, t).out
    ensures t.handlers != [] ==> !(NoExceptionHandler(fn) in TryCheck(fn, t).out && CatchesAll(fn) in TryCheck(fn, t).out)
  {
    if t.handlers != [] {
      assert t.handlers[0] in t.handlers;
    }
  }

  function StmtCheck(fn: string, stmt: Node): Report<LogWarning>
  {
    if stmt.Try? then TryCheck(fn, stmt) else Nothing()
  }

  /** Every warning printed for a `try` statement of `body` is in `out`. */
  predicate ReportsTries(fn: string, body: seq<Node>, out: seq<LogWarning>)
  {
    forall i, w | 0 <= i < |body| && body[i].Try? && w in TryCheck(fn, body[i]).out :: w in out
  }

  /** `w` is printed for one of the `try` statements of `body`. */
  predicate FromTry(fn: string, body: seq<Node>, w: LogWarning)
  {
    exists i | 0 <= i < |body| :: body[i].Try? && w in TryCheck(fn, body[i]).out
  }

  /** The `try` rules over the statements of a function body: they never
      raise, and they print every warning of every `try` statement and
      nothing else. */
  function TryRules(fn: string, body: seq<Node>): (r: Report<LogWarning>)
    ensures r.Finished()
    ensures forall w | w in r.out :: w.NoExceptionHandler? || w.NoLoggingCall? || w.CatchesAll?
    ensures forall w | w in r.out :: FromTry(fn, body, w)
    ensures ReportsTries(fn, body, r.out)
  {
    var r := ForEach(body, (s: Node) => StmtCheck(fn, s));
    assert forall w | w in r.out :: FromTry(fn, body, w) by {
      forall w | w in r.out ensures FromTry(fn, body, w) {
        var i :| 0 <= i < |body| && w in StmtCheck(fn, body[i]).out;
        assert body[i].Try?;
      }
    }
    r
  }

  /** The checks on a call of an attribute of `logging`: a deprecated
      function, and a second positional string that is not a level name.
      Reading `.id` of an attribute's object that is not a plain name
      raises AttributeError. */
  function LoggingCallCheck(fn: string, call: Node): (r: Report<LogWarning>)
    requires call.Call?
    ensures !call.func.Attribute? ==> r == Nothing()
    ensures call.func.Attribute? ==> (r.Finished() <==> call.func.value.Name?)
    ensures call.func.Attribute? && call.func.value.Name? && call.func.value.id != "logging" ==> r == Nothing()
    ensures call.func.Attribute? && call.func.value == Name("logging") ==>
              && (DeprecatedLogging(fn, call.func.attr) in r.out <==> call.func.attr in DeprecatedFunctions)
              && (NoLogLevel(fn) in r.out <==>
                   |call.args| > 1 && IsStr(call.args[1]) && call.args[1].lit.s !in LogLevels)
    ensures forall w | w in r.out :: w.DeprecatedLogging? || w.NoLogLevel?
  {
    if !call.func.Attribute? then Nothing()
    else if !call.func.value.Name? then Abort(AttributeError)
    else if call.func.value.id != "logging" then Nothing()
    else
      Then(EmitIf(call.func.attr in DeprecatedFunctions, DeprecatedLogging(fn, call.func.attr)),
           EmitIf(|call.args| > 1 && IsStr(call.args[1]) && call.args[1].lit.s !in LogLevels, NoLogLevel(fn)))
  }

  function LoggingNodeCheck(fn: string, n: Node): Report<LogWarning>
  {
    if n.Call? then LoggingCallCheck(fn, n) else Nothing()
  }

  /** A node the logging rules get through without raising: anything but a
      call of an attribute whose object is not a plain name. */
  predicate LoggingReadable(n: Node)
  {
    n.Call? && n.func.Attribute? ==> n.func.value.Name?
  }

  /** Every warning printed for a call of `walk` is in `out`. */
  predicate ReportsLoggingCalls(fn: string, walk: seq<Node>, out: seq<LogWarning>)
  {
    forall i, w | 0 <= i < |walk| && walk[i].Call? && w in LoggingCallCheck(fn, walk[i]).out :: w in out
  }

  /** `w` is printed for a call of an attribute of `logging` in `walk`. */
  predicate FromLoggingCall(fn: string, walk: seq<Node>, w: LogWarning)
  {
    exists i | 0 <= i < |walk| ::
      walk[i].Call? && walk[i].func.Attribute? && walk[i].func.value == Name("logging")
      && w in LoggingCallCheck(fn, walk[i]).out
  }

  /** The logging-call rules over the nodes of a subtree. They finish
      exactly when every node is readable, and otherwise stop with
      AttributeError; they print only warnings for calls on `logging`, and
      when they finish, all of them. */
  function LoggingRules(fn: string, walk: seq<Node>): (r: Report<LogWarning>)
    ensures forall w | w in r.out :: w.DeprecatedLogging? || w.NoLogLevel?
    ensures forall w | w in r.out :: FromLoggingCall(fn, walk, w)
    ensures r.Finished() <==> forall i | 0 <= i < |walk| :: LoggingReadable(walk[i])
    ensures !r.Finished() ==> r.error == Some(AttributeError)
    ensures r.Finished() ==> ReportsLoggingCalls(fn, walk, r.out)
  {
    var f := (n: Node) => LoggingNodeCheck(fn, n);
    var r := ForEach(walk, f);
    assert forall w | w in r.out :: FromLoggingCall(fn, walk, w) by {
      forall w | w in r.out ensures FromLoggingCall(fn, walk, w) {
        var i :| 0 <= i < |walk| && w in LoggingNodeCheck(fn, walk[i]).out;
        assert walk[i].Call?;
      }
    }
    assert !r.Finished() ==> r.error == Some(AttributeError) by {
      if !r.Finished() {
        ForEachError(walk, f);
        var i :| 0 <= i < |walk| && f(walk[i]).error == r.error;
        assert LoggingNodeCheck(fn, walk[i]).error == r.error;
      }
    }
    r
  }

  predicate IsPrintCall(n: Node)
  {
    n.Call? && n.func == Name("print")
  }

  /** A `print` call warns unless the function body logs somewhere. */
  function PrintCheck(fn: string, n: Node, body: seq<Node>): (r: Report<LogWarning>)
    ensures r.Finished()
    ensures r.out != [] <==> IsPrintCall(n) && !HasLogCall(body)
    ensures forall w | w in r.out :: w == PrintInsteadOfLogging(fn)
  {
    EmitIf(IsPrintCall(n) && !HasLogCall(body), PrintInsteadOfLogging(fn))
  }

  /** The `print` rule over the nodes of a subtree: nothing when the body
      logs, and otherwise one warning per `print` call. */
  function PrintRules(fn: string, walk: seq<Node>, body: seq<Node>): (r: Report<LogWarning>)
    ensures r.Finished()
    ensures forall w | w in r.out :: w == PrintInsteadOfLogging(fn)
    ensures HasLogCall(body) ==> r.out == []
    ensures !HasLogCall(body) ==> r.out == OnePerMatch(walk, IsPrintCall, PrintInsteadOfLogging(fn))
  {
    var f := (n: Node) => PrintCheck(fn, n, body);
    var r := ForEach(walk, f);
    assert forall w | w in r.out :: exists i | 0 <= i < |walk| :: w in PrintCheck(fn, walk[i], body).out;
    assert !HasLogCall(body) ==> r.out == OnePerMatch(walk, IsPrintCall, PrintInsteadOfLogging(fn)) by {
      if !HasLogCall(body) {
        ForEachOnePerMatch(walk, f, IsPrintCall, PrintInsteadOfLogging(fn));
      }
    }
    r
  }

  /** In a subtree that calls `print`, the `print` rule warns exactly when
      the body never logs. */
  lemma PrintRulesMeaning(fn: string, walk: seq<Node>, body: seq<Node>)
    requires exists n | n in walk :: IsPrintCall(n)
    ensures PrintRules(fn, walk, body).out != [] <==> !HasLogCall(body)
  {
    if !HasLogCall(body) {
      var n :| n in walk && IsPrintCall(n);
      var k :| 0 <= k < |walk| && walk[k] == n;
      assert PrintInsteadOfLogging(fn) in PrintCheck(fn, walk[k], body).out;
      var r := ForEach(walk, (n: Node) => PrintCheck(fn, n, body));
      assert PrintRules(fn, walk, body) == r;
      assert PrintInsteadOfLogging(fn) in r.out;
    }
  }

  predicate IsAssert(n: Node) { n.Assert? }

  /** `audit_error_handling_and_logging`: the `try` rules over the direct
      body, then the logging, `print` and `assert` rules over the whole
      subtree of a function definition. The docstring rule that follows
      them prints nothing (`DocstringRule`). */
  function AuditErrorHandling(node: Node): (r: Report<LogWarning>)
    ensures !node.FunctionDef? ==> r == Nothing()
    ensures node.FunctionDef? ==> (r.Finished() <==> forall i | 0 <= i < |Walk(node)| :: LoggingReadable(Walk(node)[i]))
    ensures node.FunctionDef? && !r.Finished() ==>
              r == Report(TryRules(node.name, node.body).out + LoggingRules(node.name, Walk(node)).out,
                          Some(AttributeError))
    ensures node.FunctionDef? && r.Finished() ==>
              r.out == TryRules(node.name, node.body).out
                       + (LoggingRules(node.name, Walk(node)).out
                          + (PrintRules(node.name, Walk(node), node.body).out
                             + OnePerMatch(Walk(node), IsAssert, AssertUsed(node.name))))
  {
    if node.FunctionDef? then
      var walk := Walk(node);
      var tries := TryRules(node.name, node.body);
      var logs := LoggingRules(node.name, walk);
      var prints := PrintRules(node.name, walk, node.body);
      var asserts := Report(OnePerMatch(walk, IsAssert, AssertUsed(node.name)), None);
      Then(tries, Then(logs, Then(prints, asserts)))
    else Nothing()
  }

  /** The docstring rule. `for comment in docstring` walks the docstring
      one character at a time, upper-cases each and looks for `TODO` or
      `FIXME`. `upper` is Python's `str.upper` on one character, whose full
      case mapping has at most three characters (`ﬃ` becomes `FFI`): too
      short for either word, so the rule never prints. Had a word matched,
      the scan for a logging call would have read `.value` of the
      definition node itself and raised AttributeError. `docstring` is
      `ast.get_docstring(node) or ""`. */
  method DocstringRule(fn: string, docstring: string, upper: char -> string) returns (r: Report<LogWarning>)
    requires forall c :: |upper(c)| <= 3
    ensures r == Nothing()
  {
    var i := 0;
    while i < |docstring|
      invariant 0 <= i <= |docstring|
      invariant forall j | 0 <= j < i :: !Contains(upper(docstring[j]), "TODO") && !Contains(upper(docstring[j]), "FIXME")
    {
      var comment := upper(docstring[i]);
      if Contains(comment, "TODO") || Contains(comment, "FIXME") {
        ShorterHasNoOccurrence(comment, "TODO");
        ShorterHasNoOccurrence(comment, "FIXME");
        assert false;
      }
      i := i + 1;
    }
    r := Nothing();
  }

  /** The `assert` rule prints exactly one warning per `assert` statement
      of the subtree, and no other rule prints that warning. */
  lemma AssertWarningsCounted(node: Node)
    requires node.FunctionDef? && AuditErrorHandling(node).Finished()
    ensures multiset(AuditErrorHandling(node).out)[AssertUsed(node.name)] == |Matches(Walk(node), IsAssert)|
  {
    var fn, walk := node.name, Walk(node);
    var tries, logs, prints := TryRules(fn, node.body).out, LoggingRules(fn, walk).out, PrintRules(fn, walk, node.body).out;
    var asserts := OnePerMatch(walk, IsAssert, AssertUsed(fn));
    assert AuditErrorHandling(node).out == tries + (logs + (prints + asserts));
    assert AssertUsed(fn) !in tries && AssertUsed(fn) !in logs && AssertUsed(fn) !in prints;
    assert multiset(prints + asserts)[AssertUsed(fn)] == multiset(asserts)[AssertUsed(fn)];
    assert multiset(logs + (prints + asserts))[AssertUsed(fn)] == multiset(asserts)[AssertUsed(fn)];
  }

  /** In a function that calls `print`, the `print` warning appears exactly
      when the body never logs. */
  lemma PrintWarningMeansNoLogging(node: Node)
    requires node.FunctionDef? && AuditErrorHandling(node).Finished()
    requires exists n | n in Walk(node) :: IsPrintCall(n)
    ensures PrintInsteadOfLogging(node.name) in AuditErrorHandling(node).out <==> !HasLogCall(node.body)
  {
    var fn, walk := node.name, Walk(node);
    var tries, logs := TryRules(fn, node.body).out, LoggingRules(fn, walk).out;
    var prints := PrintRules(fn, walk, node.body).out;
    var asserts := OnePerMatch(walk, IsAssert, AssertUsed(fn));
    var w := PrintInsteadOfLogging(fn);
    assert AuditErrorHandling(node).out == tries + (logs + (prints + asserts));
    assert w !in tries && w !in logs && w !in asserts;
    assert w in tries + (logs + (prints + asserts)) <==> w in prints;
    PrintRulesMeaning(fn, walk, node.body);
    if !HasLogCall(node.body) {
      assert prints[0] in prints;
    }
  }

  /** `logging.warn(...)` is reported as deprecated; `logging.info(msg,
      "VERBOSE")` is reported for its level. */
  lemma LoggingCallExamples(msg: Node)
    ensures LoggingCallCheck("f", Call(Attribute(Name("logging"), "warn"), [], [])).out == [DeprecatedLogging("f", "warn")]
    ensures LoggingCallCheck("f", Call(Attribute(Name("logging"), "info"), [msg, Constant(StrLit("VERBOSE"))], [])).out
            == [NoLogLevel("f")]
  {
  }
}
