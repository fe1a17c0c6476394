/** The configuration checker: calls that read configuration insecurely
    anywhere in a function, and secrets written out in the statements of
    the function's own body. */
module SecureConfig {
  import opened Outcomes
  import opened Strings
  import opened Ast

  datatype ConfigWarning =
    | ConfigFunction(fn: string, name: string)
    | IniFile(fn: string)
    | ShellCommand(fn: string, command: string)
    | HardcodedSecret(fn: string, target: string)
    | ConcatenatedSecret(fn: string, target: string)
    | SecretInString(fn: string)
    | SecretInBytes(fn: string)

  /** The variable names a plain string assignment may not bind. */
  const SecretTargets: seq<string> := ["username", "password", "secret_key", "api_key"]

  /** The words a concatenation target, a bare string or a bytes literal
      may not name. */
  const SecretWords: seq<string> := ["password", "secret_key", "api_key"]

  /** `password|secret_key|api_key` as a bytes pattern. */
  function SecretByteWords(): (r: seq<seq<byte>>)
    ensures |r| == |SecretWords| && forall k | 0 <= k < |r| :: r[k] == AsciiBytes(SecretWords[k])
  {
    [AsciiBytes("password"), AsciiBytes("secret_key"), AsciiBytes("api_key")]
  }

  /** A `subprocess` call whose first argument is a string literal that
      mentions `ssh` or `scp`. */
  predicate ShellCommandCall(name: string, args: seq<Node>)
  {
    name in ["subprocess.call", "subprocess.Popen"] && |args| > 0 && IsStr(args[0])
    && ContainsAny(args[0].lit.s, ["ssh", "scp"])
  }

  /** The checks on one call, an elif chain on the callee's name. */
  function CallCheck(fn: string, call: Node): (r: Report<ConfigWarning>)
    requires call.Call?
    ensures |r.out| <= 1
    ensures forall w | w in r.out :: w.ConfigFunction? || w.IniFile? || w.ShellCommand?
    ensures CalleeName(call.func).Fail? ==> r == Abort(AttributeError)
    ensures CalleeName(call.func).Ok? ==>
              var name := CalleeName(call.func).value;
              && r.Finished()
              && (name in ["ConfigParser", "os.environ"] <==> r.out == [ConfigFunction(fn, name)])
              && (r.out == [IniFile(fn)] <==>
                   name == "open" && |call.args| > 0 && IsStr(call.args[0]) && EndsWith(call.args[0].lit.s, ".ini"))
              && ((r.out != [] && r.out[0].ShellCommand?) <==> ShellCommandCall(name, call.args))
              && (ShellCommandCall(name, call.args) ==> r.out == [ShellCommand(fn, call.args[0].lit.s)])
              && (name !in ["ConfigParser", "os.environ", "open", "subprocess.call", "subprocess.Popen"] ==> r == Nothing())
  {
    match CalleeName(call.func)
    case Fail(e) => Abort(e)
    case Ok(name) =>
      if name in ["ConfigParser", "os.environ"] then Emit(ConfigFunction(fn, name))
      else if name == "open" then
        EmitIf(|call.args| > 0 && IsStr(call.args[0]) && EndsWith(call.args[0].lit.s, ".ini"), IniFile(fn))
      else if name in ["subprocess.call", "subprocess.Popen"] then
        if ShellCommandCall(name, call.args) then Emit(ShellCommand(fn, call.args[0].lit.s))
        else Nothing()
      else Nothing()
  }

  function NodeCheck(fn: string, n: Node): Report<ConfigWarning>
  {
    if n.Call? then CallCheck(fn, n) else Nothing()
  }

  /** The secret checks on one statement of the body. An assignment reads
      its first target (IndexError when there is none); a plain string
      warns for the four secret names, a binary operation on two strings
      for the three secret words. A bare string statement warns when it
      mentions a secret word, and so does a bytes constant assigned with a
      `bytes` annotation. Any other statement, compound ones included, is
      not looked into. */
  function StmtCheck(fn: string, stmt: Node): (r: Report<ConfigWarning>)
    ensures |r.out| <= 1
    ensures forall w | w in r.out :: !(w.ConfigFunction? || w.IniFile? || w.ShellCommand?)
    ensures !stmt.Assign? && !stmt.Expr? && !stmt.AnnAssign? ==> r == Nothing()
    ensures stmt.Assign? ==> (r.Finished() <==> stmt.targets != [])
    ensures stmt.Assign? && stmt.targets != [] && stmt.targets[0].Name? && IsStr(stmt.value) ==>
              (r.out != [] <==> stmt.targets[0].id in SecretTargets)
              && (r.out != [] ==> r.out == [HardcodedSecret(fn, stmt.targets[0].id)])
    ensures stmt.Assign? && stmt.targets != [] && !(stmt.targets[0].Name? && IsStr(stmt.value))
            && stmt.value.BinOp? && IsStr(stmt.value.left) && IsStr(stmt.value.right) ==>
              (r.out != [] <==> stmt.targets[0].Name? && stmt.targets[0].id in SecretWords)
              && (r.out != [] ==> r.out == [ConcatenatedSecret(fn, stmt.targets[0].id)])
    ensures (stmt.Assign? && stmt.targets != [] && !(stmt.targets[0].Name? && IsStr(stmt.value))
             && !(stmt.value.BinOp? && IsStr(stmt.value.left) && IsStr(stmt.value.right))) ==> r == Nothing()
    ensures !stmt.Assign? ==> r.Finished()
    ensures stmt.Expr? ==>
              (r.out != [] <==> IsStr(stmt.value) && ContainsAny(stmt.value.lit.s, SecretWords))
              && (r.out != [] ==> r.out == [SecretInString(fn)])
    ensures stmt.AnnAssign? ==>
              (r.out != [] <==>
                 && stmt.annotation == Name("bytes")
                 && stmt.annValue.Some? && stmt.annValue.value.Constant? && stmt.annValue.value.lit.BytesLit?
                 && ContainsAny(stmt.annValue.value.lit.bytes, SecretByteWords()))
              && (r.out != [] ==> r.out == [SecretInBytes(fn)])
  {
    match stmt
    case Assign(targets, value) =>
      if targets == [] then Abort(IndexError)
      else if targets[0].Name? && IsStr(value) then
        EmitIf(targets[0].id in SecretTargets, HardcodedSecret(fn, targets[0].id))
      else if value.BinOp? && IsStr(value.left) && IsStr(value.right) then
        if targets[0].Name? && targets[0].id in SecretWords then Emit(ConcatenatedSecret(fn, targets[0].id))
        else Nothing()
      else Nothing()
    case Expr(value) =>
      EmitIf(IsStr(value) && ContainsAny(value.lit.s, SecretWords), SecretInString(fn))
    case AnnAssign(_, annotation, annValue) =>
      if annotation.Name? && annotation.id == "bytes" then
        EmitIf(annValue.Some? && annValue.value.Constant? && annValue.value.lit.BytesLit?
               && ContainsAny(annValue.value.lit.bytes, SecretByteWords()), SecretInBytes(fn))
      else Nothing()
    case _ => Nothing()
  }

  /** Every warning the check of a call of `walk` prints is in `out`. */
  predicate ReportsConfigCalls(fn: string, walk: seq<Node>, out: seq<ConfigWarning>)
  {
    forall i, w | 0 <= i < |walk| && walk[i].Call? && w in CallCheck(fn, walk[i]).out :: w in out
  }

  /** Every warning the secret checks of a statement of `body` print is in
      `out`. */
  predicate ReportsStatements(fn: string, body: seq<Node>, out: seq<ConfigWarning>)
  {
    forall i, w | 0 <= i < |body| && w in StmtCheck(fn, body[i]).out :: w in out
  }

  /** `audit_secure_config`: the call checks over the whole subtree of a
      function definition, then the secret checks over its direct body. It
      finishes exactly when every callee has a name and every assignment of
      the body has a target, and then it prints every warning of both
      phases and nothing else. */
  function AuditSecureConfig(node: Node): (r: Report<ConfigWarning>)
    ensures !node.FunctionDef? ==> r == Nothing()
    ensures node.FunctionDef? ==> forall w | w in r.out ::
              if w.ConfigFunction? || w.IniFile? || w.ShellCommand? then FromCall(node.name, Walk(node), w)
              else FromStatement(node.name, node.body, w)
    ensures node.FunctionDef? ==>
              (r.Finished() <==>
                 CalleesNamed(Walk(node)) && forall i | 0 <= i < |node.body| :: node.body[i].Assign? ==> node.body[i].targets != [])
    ensures node.FunctionDef? && r.Finished() ==>
              ReportsConfigCalls(node.name, Walk(node), r.out) && ReportsStatements(node.name, node.body, r.out)
  {
    if node.FunctionDef? then
      var walk := Walk(node);
      var calls := ForEach(walk, (n: Node) => NodeCheck(node.name, n));
      var stmts := ForEach(node.body, (s: Node) => StmtCheck(node.name, s));
      var r := Then(calls, stmts);
      assert forall w | w in r.out ::
               if w.ConfigFunction? || w.IniFile? || w.ShellCommand? then FromCall(node.name, walk, w)
               else FromStatement(node.name, node.body, w)
      by {
        forall w | w in r.out
          ensures if w.ConfigFunction? || w.IniFile? || w.ShellCommand? then FromCall(node.name, walk, w)
                  else FromStatement(node.name, node.body, w)
        {
          if w in calls.out {
            var i :| 0 <= i < |walk| && w in NodeCheck(node.name, walk[i]).out;
            assert walk[i].Call?;
          } else {
            assert w in stmts.out;
            var i :| 0 <= i < |node.body| && w in StmtCheck(node.name, node.body[i]).out;
          }
        }
      }
      CallPhase(node.name, walk, (n: Node) => NodeCheck(node.name, n));
      StatementPhase(node.name, node.body, (s: Node) => StmtCheck(node.name, s));
      r
    else Nothing()
  }

  /** The call phase finishes exactly when every callee has a name, and
      then it prints every warning of every call. */
  lemma CallPhase(fn: string, walk: seq<Node>, f: Node -> Report<ConfigWarning>)
    requires forall n :: f(n) == NodeCheck(fn, n)
    ensures ForEach(walk, f).Finished() <==> CalleesNamed(walk)
    ensures ForEach(walk, f).Finished() ==> ReportsConfigCalls(fn, walk, ForEach(walk, f).out)
  {
    forall i | 0 <= i < |walk|
      ensures f(walk[i]).Finished() <==> (walk[i].Call? ==> CalleeName(walk[i].func).Ok?)
    {
    }
  }

  /** The statement phase finishes exactly when every assignment has a
      target, and then it prints every warning of every statement. */
  lemma StatementPhase(fn: string, body: seq<Node>, f: Node -> Report<ConfigWarning>)
    requires forall s :: f(s) == StmtCheck(fn, s)
    ensures ForEach(body, f).Finished() <==> forall i | 0 <= i < |body| :: body[i].Assign? ==> body[i].targets != []
    ensures ForEach(body, f).Finished() ==> ReportsStatements(fn, body, ForEach(body, f).out)
  {
  }

  /** `w` is printed by the check of one of the calls in `walk`. */
  predicate FromCall(fn: string, walk: seq<Node>, w: ConfigWarning)
  {
    exists i | 0 <= i < |walk| :: walk[i].Call? && w in CallCheck(fn, walk[i]).out
  }

  /** `w` is printed by the secret checks of one of the statements in
      `body`. */
  predicate FromStatement(fn: string, body: seq<Node>, w: ConfigWarning)
  {
    exists i | 0 <= i < |body| :: w in StmtCheck(fn, body[i]).out
  }

  /** A concatenation of two string literals is a secret when bound to
      `password`, `secret_key` or `api_key`, but not to `username`, which
      only the plain-string check lists. */
  lemma ConcatenationSkipsUsername(a: string, b: string, op: BinOperator)
    ensures StmtCheck("f", Assign([Name("password")], BinOp(Constant(StrLit(a)), op, Constant(StrLit(b))))).out
            == [ConcatenatedSecret("f", "password")]
    ensures StmtCheck("f", Assign([Name("username")], BinOp(Constant(StrLit(a)), op, Constant(StrLit(b))))).out == []
    ensures StmtCheck("f", Assign([Name("username")], Constant(StrLit(a)))).out == [HardcodedSecret("f", "username")]
  {
  }

  /** `open("settings.ini")` and `ConfigParser()` warn; `open(path)` with a
      variable does not. */
  lemma ConfigCallExamples()
    ensures CallCheck("f", Call(Name("open"), [Constant(StrLit("settings.ini"))], [])).out == [IniFile("f")]
    ensures CallCheck("f", Call(Name("ConfigParser"), [], [])).out == [ConfigFunction("f", "ConfigParser")]
    ensures CallCheck("f", Call(Name("open"), [Name("path")], [])).out == []
  {
    assert "settings.ini"[8..] == ".ini";
  }

  /** A secret read at run time is not hard-coded: `password = input()`
      prints nothing, and neither does an attribute target. */
  lemma ComputedSecretIgnored(secret: string)
    ensures StmtCheck("f", Assign([Name("password")], Call(Name("input"), [], []))) == Nothing()
    ensures StmtCheck("f", Assign([Attribute(Name("self"), "password")], Constant(StrLit(secret)))) == Nothing()
  {
  }

  /** A secret assigned inside a nested block is not seen by the body scan:
      only the `if` itself is a statement of the body. */
  lemma NestedSecretIgnored(test: Node, secret: string)
    ensures StmtCheck("f", If(test, [Assign([Name("password")], Constant(StrLit(secret)))], [])) == Nothing()
  {
  }
}
