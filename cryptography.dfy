/** The cryptography checker: insecure hash, MAC and random-number calls
    anywhere in a function, and weak key sizes and missing operations on
    primitive constructors assigned in the function's own body. */
module Cryptography {
  import opened Outcomes
  import opened Strings
  import opened Ast

  /** Minimum acceptable key size per primitive. */
  const KeySizes: map<string, int> :=
    map["RSA" := 2048, "DSA" := 2048, "ECDSA" := 256, "Ed25519" := 256, "AES" := 256, "ChaCha20" := 256]

  /** The operations each primitive must be given. */
  const RequiredOps: map<string, set<string>> :=
    map["RSA" := {"encrypt", "decrypt", "sign", "verify"},
        "DSA" := {"sign", "verify"},
        "ECDSA" := {"sign", "verify"},
        "Ed25519" := {"sign", "verify"},
        "AES" := {"encrypt", "decrypt"},
        "ChaCha20" := {"encrypt", "decrypt"}]

  datatype CryptoWarning =
    | InsecureHash(fn: string)
    | InsecureMac(fn: string)
    | InsecureRandom(fn: string)
    | WeakKeySize(fn: string, primitive: string)
    | MissingOperations(fn: string, primitive: string, missing: set<string>)

  /** The two tables name the same six primitives. */
  lemma TablesShareKeys()
    ensures KeySizes.Keys == RequiredOps.Keys
    ensures |KeySizes.Keys| == 6
  {
    assert KeySizes.Keys == {"RSA", "DSA", "ECDSA", "Ed25519", "AES", "ChaCha20"};
  }

  /** `(^|\W)` in front of index `i`. */
  predicate BoundaryBefore(s: string, i: nat)
  {
    i == 0 || (i <= |s| && !IsWordChar(s[i - 1]))
  }

  /** `\W` at index `i`. */
  predicate NonWordAt(s: string, i: nat)
  {
    i < |s| && !IsWordChar(s[i])
  }

  /** `(^|\W)(l0|l1|...)\W` found anywhere in `s`. */
  predicate DelimitedLiteral(s: string, lits: seq<string>)
  {
    exists i: nat, k | i <= |s| && 0 <= k < |lits| ::
      BoundaryBefore(s, i) && OccursAt(s, lits[k], i) && NonWordAt(s, i + |lits[k]|)
  }

  /** `(^|\W)hashlib\.(md5|sha1)\W` */
  predicate InsecureHashName(s: string) { DelimitedLiteral(s, ["hashlib.md5", "hashlib.sha1"]) }

  /** `(^|\W)(hmac\.new|hashlib\.pbkdf2_hmac)\W` */
  predicate InsecureMacName(s: string) { DelimitedLiteral(s, ["hmac.new", "hashlib.pbkdf2_hmac"]) }

  /** `(^|\W)random\.\w+\W`: `random.`, one or more word characters, then a
      non-word character. */
  predicate InsecureRandomName(s: string)
  {
    exists i: nat, j: nat | i <= |s| && j <= |s| ::
      && BoundaryBefore(s, i) && OccursAt(s, "random.", i)
      && i + 7 < j && NonWordAt(s, j)
      && forall m | i + 7 <= m < j :: IsWordChar(s[m])
  }

  /** All three patterns need a dot, so a name without one (every
      identifier) is never flagged. */
  lemma UndottedNameNeverFlagged(s: string)
    requires '.' !in s
    ensures !InsecureHashName(s) && !InsecureMacName(s) && !InsecureRandomName(s)
  {
    forall i: nat, k | i <= |s| && 0 <= k < 2
      ensures !OccursAt(s, ["hashlib.md5", "hashlib.sha1"][k], i)
      ensures !OccursAt(s, ["hmac.new", "hashlib.pbkdf2_hmac"][k], i)
    {
      OccurrenceHoldsChar(s, ["hashlib.md5", "hashlib.sha1"][k], i, 7);
      OccurrenceHoldsChar(s, ["hmac.new", "hashlib.pbkdf2_hmac"][k], i, if k == 0 then 4 else 7);
    }
    forall i: nat | i <= |s| ensures !OccursAt(s, "random.", i) {
      OccurrenceHoldsChar(s, "random.", i, 6);
    }
  }

  /** The checks on one call: the callee's name (AttributeError when it has
      none) goes through the hash, MAC and random patterns as an elif chain.
      `calledByParent` stands for the ancestor scan, which skips a random
      call that is itself the callee of an enclosing call. */
  function CallCheck(fn: string, call: Node, calledByParent: Node -> bool): (r: Report<CryptoWarning>)
    requires call.Call?
    ensures |r.out| <= 1
    ensures forall w | w in r.out :: w.InsecureHash? || w.InsecureMac? || w.InsecureRandom?
    ensures r.Finished() <==> call.func.Name? || call.func.Attribute?
    ensures r.Finished() ==>
              var name := CalleeName(call.func).value;
              && (r.out == [InsecureHash(fn)] <==> InsecureHashName(name))
              && (r.out == [InsecureMac(fn)] <==> !InsecureHashName(name) && InsecureMacName(name))
              && (r.out == [InsecureRandom(fn)] <==>
                   !InsecureHashName(name) && !InsecureMacName(name) && InsecureRandomName(name)
                   && !calledByParent(call))
  {
    match CalleeName(call.func)
    case Fail(e) => Abort(e)
    case Ok(name) =>
      if InsecureHashName(name) then Emit(InsecureHash(fn))
      else if InsecureMacName(name) then Emit(InsecureMac(fn))
      else if InsecureRandomName(name) then EmitIf(!calledByParent(call), InsecureRandom(fn))
      else Nothing()
  }

  function NodeCheck(fn: string, n: Node, calledByParent: Node -> bool): Report<CryptoWarning>
  {
    if n.Call? then CallCheck(fn, n, calledByParent) else Nothing()
  }

  /** `kws[i]` is the first keyword argument called `bits`, and its value
      is `v`. */
  predicate FirstBitsAt(kws: seq<Keyword>, i: int, v: Node)
  {
    0 <= i < |kws| && kws[i] == Keyword(Some("bits"), v) && forall j | 0 <= j < i :: kws[j].arg != Some("bits")
  }

  /** The first keyword argument called `bits`, if any. */
  function FirstBits(kws: seq<Keyword>): (r: Option<Node>)
    ensures r.None? <==> forall i | 0 <= i < |kws| :: kws[i].arg != Some("bits")
    ensures r.Some? ==> exists i :: FirstBitsAt(kws, i, r.value)
    decreases |kws|
  {
    if kws == [] then None
    else if kws[0].arg == Some("bits") then
      assert FirstBitsAt(kws, 0, kws[0].value);
      Some(kws[0].value)
    else
      assert forall i | 1 <= i < |kws| :: kws[1..][i - 1] == kws[i];
      var r := FirstBits(kws[1..]);
      assert r.Some? ==> exists i :: FirstBitsAt(kws, i, r.value) by {
        if r.Some? {
          var i :| FirstBitsAt(kws[1..], i, r.value);
          assert FirstBitsAt(kws, i + 1, r.value);
        }
      }
      r
  }

  /** A constant that compares with an int: `bool`, `int` and `float`. */
  function Numeric(v: Literal): Option<real>
  {
    match v
    case IntLit(i) => Some(i as real)
    case BoolLit(b) => Some(if b then 1.0 else 0.0)
    case FloatLit(f) => Some(f)
    case _ => None
  }

  /** `size = next((kw.value.n for kw in keywords if kw.arg == "bits"), None)
      or key_sizes[name]; if size < key_sizes[name]: warn`. Only the first
      `bits` keyword counts; its value needs a `.n` (AttributeError
      otherwise), a falsy one (absent, `0`, `None`, ...) falls back to the
      minimum and so never warns, and one that does not compare with an int
      raises TypeError. */
  function KeySizeCheck(fn: string, primitive: string, kws: seq<Keyword>): (r: Report<CryptoWarning>)
    requires primitive in KeySizes
    ensures |r.out| <= 1
    ensures r.out != [] ==> r.out == [WeakKeySize(fn, primitive)]
    ensures r.out != [] <==>
              && FirstBits(kws).Some? && FirstBits(kws).value.Constant?
              && var v := FirstBits(kws).value.lit;
                 Truthy(v) && Numeric(v).Some? && Numeric(v).value < KeySizes[primitive] as real
    ensures FirstBits(kws).None? ==> r == Nothing()
    ensures FirstBits(kws).Some? && !FirstBits(kws).value.Constant? ==> r == Abort(AttributeError)
    ensures FirstBits(kws).Some? && FirstBits(kws).value.Constant? ==>
              var v := FirstBits(kws).value.lit;
              Truthy(v) && Numeric(v).None? ==> r == Abort(TypeError)
    ensures r.Finished() <==> KeySizeReadable(kws)
  {
    var bits := FirstBits(kws);
    if bits.None? then Nothing()
    else if !bits.value.Constant? then Abort(AttributeError)
    else
      var v := bits.value.lit;
      if !Truthy(v) then Nothing()
      else if Numeric(v).None? then Abort(TypeError)
      else EmitIf(Numeric(v).value < KeySizes[primitive] as real, WeakKeySize(fn, primitive))
  }

  /** Keyword arguments the key-size test gets through without raising: no
      `bits`, or a first `bits` that is a constant that is falsy or
      compares with an int. */
  predicate KeySizeReadable(kws: seq<Keyword>)
  {
    FirstBits(kws).Some? ==>
      FirstBits(kws).value.Constant?
      && (Truthy(FirstBits(kws).value.lit) ==> Numeric(FirstBits(kws).value.lit).Some?)
  }

  /** `{arg.s for arg in args} | {kw.arg for kw in keywords}`, for arguments
      that are all constants: the string operations named. */
  function ObservedOps(args: seq<Node>, kws: seq<Keyword>): set<string>
  {
    (set a | a in args && a.Constant? && a.lit.StrLit? :: a.lit.s)
    + (set k | k in kws && k.arg.Some? :: k.arg.value)
  }

  /** The operation coverage test: the positional arguments must all be
      constants (AttributeError otherwise), and the warning fires exactly
      when some required operation is missing; it reports the missing ones,
      which are required and not observed. */
  function OpsCheck(fn: string, primitive: string, args: seq<Node>, kws: seq<Keyword>): (r: Report<CryptoWarning>)
    requires primitive in RequiredOps
    ensures r.Finished() <==> forall i | 0 <= i < |args| :: args[i].Constant?
    ensures |r.out| <= 1
    ensures r.Finished() ==> (r.out != [] <==> !(RequiredOps[primitive] <= ObservedOps(args, kws)))
    ensures forall w | w in r.out ::
              && w.MissingOperations? && w.fn == fn && w.primitive == primitive
              && w.missing != {}
              && w.missing <= RequiredOps[primitive]
              && w.missing !! ObservedOps(args, kws)
              && RequiredOps[primitive] <= w.missing + ObservedOps(args, kws)
  {
    if exists i | 0 <= i < |args| :: !args[i].Constant? then Abort(AttributeError)
    else
      var ops := ObservedOps(args, kws);
      if !(RequiredOps[primitive] <= ops) then
        var missing := RequiredOps[primitive] - ops;
        assert missing != {} by {
          var op :| op in RequiredOps[primitive] && op !in ops;
          assert op in missing;
        }
        Emit(MissingOperations(fn, primitive, missing))
      else Nothing()
  }

  /** An assignment the key checks look at: at least one plain-name target
      and a call of a bare name. */
  predicate IsConstructorAssign(stmt: Node)
  {
    stmt.Assign? && (exists t | t in stmt.targets :: t.Name?) && stmt.value.Call? && stmt.value.func.Name?
  }

  /** The checks on one statement of the body: the key-size check and the
      operation check are independent `if`s, so both can fire. */
  function StmtCheck(fn: string, stmt: Node): (r: Report<CryptoWarning>)
    ensures !IsConstructorAssign(stmt) ==> r == Nothing()
    ensures forall w | w in r.out :: w.WeakKeySize? || w.MissingOperations?
    ensures IsConstructorAssign(stmt) ==>
              var call := stmt.value;
              var primitive := call.func.id;
              r == Then(if primitive in KeySizes then KeySizeCheck(fn, primitive, call.keywords) else Nothing(),
                        if primitive in RequiredOps then OpsCheck(fn, primitive, call.args, call.keywords)
                        else Nothing())
  {
    if IsConstructorAssign(stmt) then
      var call := stmt.value;
      var primitive := call.func.id;
      var sizes := if primitive in KeySizes then KeySizeCheck(fn, primitive, call.keywords) else Nothing();
      var ops := if primitive in RequiredOps then OpsCheck(fn, primitive, call.args, call.keywords) else Nothing();
      Then(sizes, ops)
    else Nothing()
  }

  /** A statement the key checks get through without raising: anything but
      a constructor assignment, or one whose `bits` keyword is readable (for
      a primitive with a minimum size) and whose positional arguments are
      all constants (for a primitive with required operations). */
  predicate KeyStatementReadable(stmt: Node)
  {
    IsConstructorAssign(stmt) ==>
      (stmt.value.func.id in KeySizes ==> KeySizeReadable(stmt.value.keywords))
      && (stmt.value.func.id in RequiredOps ==>
            forall j | 0 <= j < |stmt.value.args| :: stmt.value.args[j].Constant?)
  }

  /** Every warning the check of a call of `walk` prints is in `out`. */
  predicate ReportsCryptoCalls(fn: string, walk: seq<Node>, calledByParent: Node -> bool, out: seq<CryptoWarning>)
  {
    forall i, w | 0 <= i < |walk| && walk[i].Call? && w in CallCheck(fn, walk[i], calledByParent).out :: w in out
  }

  /** Every warning the key checks of a statement of `body` print is in
      `out`. */
  predicate ReportsKeyStatements(fn: string, body: seq<Node>, out: seq<CryptoWarning>)
  {
    forall i, w | 0 <= i < |body| && w in StmtCheck(fn, body[i]).out :: w in out
  }

  /** `audit_cryptography`: calls are gathered from the whole subtree of a
      function definition, key checks from its direct body only; any other
      node gives nothing. It finishes exactly when every callee has a name
      and every statement of the body is readable, and then it prints every
      warning of both phases and nothing else, the call warnings first. */
  function AuditCryptography(node: Node, calledByParent: Node -> bool): (r: Report<CryptoWarning>)
    ensures !node.FunctionDef? ==> r == Nothing()
    ensures node.FunctionDef? ==> forall w | w in r.out ::
              if w.WeakKeySize? || w.MissingOperations? then FromKeyStatement(node.name, node.body, w)
              else FromCall(node.name, Walk(node), calledByParent, w)
    ensures node.FunctionDef? ==>
              (r.Finished() <==>
                 CalleesNamed(Walk(node)) && forall i | 0 <= i < |node.body| :: KeyStatementReadable(node.body[i]))
    ensures node.FunctionDef? && r.Finished() ==>
              ReportsCryptoCalls(node.name, Walk(node), calledByParent, r.out)
              && ReportsKeyStatements(node.name, node.body, r.out)
  {
    if node.FunctionDef? then
      var walk := Walk(node);
      var calls := ForEach(walk, (n: Node) => NodeCheck(node.name, n, calledByParent));
      var stmts := ForEach(node.body, (s: Node) => StmtCheck(node.name, s));
      var r := Then(calls, stmts);
      assert forall w | w in r.out ::
               if w.WeakKeySize? || w.MissingOperations? then FromKeyStatement(node.name, node.body, w)
               else FromCall(node.name, walk, calledByParent, w)
      by {
        forall w | w in r.out
          ensures if w.WeakKeySize? || w.MissingOperations? then FromKeyStatement(node.name, node.body, w)
                  else FromCall(node.name, walk, calledByParent, w)
        {
          if w in calls.out {
            var i :| 0 <= i < |walk| && w in NodeCheck(node.name, walk[i], calledByParent).out;
            assert walk[i].Call?;
          } else {
            assert w in stmts.out;
            var i :| 0 <= i < |node.body| && w in StmtCheck(node.name, node.body[i]).out;
            assert IsConstructorAssign(node.body[i]);
          }
        }
      }
      CallPhase(node.name, walk, calledByParent, (n: Node) => NodeCheck(node.name, n, calledByParent));
      StatementPhase(node.name, node.body, (s: Node) => StmtCheck(node.name, s));
      r
    else Nothing()
  }

  /** The call phase finishes exactly when every callee has a name, and
      then it prints every warning of every call. */
  lemma CallPhase(fn: string, walk: seq<Node>, calledByParent: Node -> bool, f: Node -> Report<CryptoWarning>)
    requires forall n :: f(n) == NodeCheck(fn, n, calledByParent)
    ensures ForEach(walk, f).Finished() <==> CalleesNamed(walk)
    ensures ForEach(walk, f).Finished() ==> ReportsCryptoCalls(fn, walk, calledByParent, ForEach(walk, f).out)
  {
    forall i | 0 <= i < |walk|
      ensures f(walk[i]).Finished() <==> (walk[i].Call? ==> CalleeName(walk[i].func).Ok?)
    {
      NodeCheckFinishes(fn, walk[i], calledByParent);
    }
  }

  /** The statement phase finishes exactly when every statement is
      readable, and then it prints every warning of every statement. */
  lemma StatementPhase(fn: string, body: seq<Node>, f: Node -> Report<CryptoWarning>)
    requires forall s :: f(s) == StmtCheck(fn, s)
    ensures ForEach(body, f).Finished() <==> forall i | 0 <= i < |body| :: KeyStatementReadable(body[i])
    ensures ForEach(body, f).Finished() ==> ReportsKeyStatements(fn, body, ForEach(body, f).out)
  {
    forall i | 0 <= i < |body|
      ensures f(body[i]).Finished() <==> KeyStatementReadable(body[i])
    {
      StmtCheckFinishes(fn, body[i]);
    }
  }

  /** The check of one node raises exactly when it is a call without a
      named callee. */
  lemma NodeCheckFinishes(fn: string, n: Node, calledByParent: Node -> bool)
    ensures NodeCheck(fn, n, calledByParent).Finished() <==> (n.Call? ==> CalleeName(n.func).Ok?)
  {
  }

  /** The key checks of one statement raise exactly when it is not
      readable. */
  lemma StmtCheckFinishes(fn: string, stmt: Node)
    ensures StmtCheck(fn, stmt).Finished() <==> KeyStatementReadable(stmt)
  {
  }

  /** `w` is printed by the check of one of the calls in `walk`. */
  predicate FromCall(fn: string, walk: seq<Node>, calledByParent: Node -> bool, w: CryptoWarning)
  {
    exists i | 0 <= i < |walk| :: walk[i].Call? && w in CallCheck(fn, walk[i], calledByParent).out
  }

  /** `w` is printed by the key checks of one of the constructor
      assignments in `body`. */
  predicate FromKeyStatement(fn: string, body: seq<Node>, w: CryptoWarning)
  {
    exists i | 0 <= i < |body| :: IsConstructorAssign(body[i]) && w in StmtCheck(fn, body[i]).out
  }

  /** A call anywhere inside a function definition, a nested definition
      included, is checked under that definition's name; so a call in a
      nested function is reported once for each enclosing definition. */
  lemma CallsOfNestedDefinitionsReported(f: Node, g: Node, call: Node, calledByParent: Node -> bool)
    requires f.FunctionDef? && g.FunctionDef? && g in Walk(f) && call in Walk(g) && call.Call?
    requires AuditCryptography(f, calledByParent).Finished()
    requires AuditCryptography(g, calledByParent).Finished()
    ensures forall w | w in CallCheck(f.name, call, calledByParent).out :: w in AuditCryptography(f, calledByParent).out
    ensures forall w | w in CallCheck(g.name, call, calledByParent).out :: w in AuditCryptography(g, calledByParent).out
  {
    WalkTransitive(f, g, call);
    var wf, wg := Walk(f), Walk(g);
    var i :| 0 <= i < |wf| && wf[i] == call;
    var j :| 0 <= j < |wg| && wg[j] == call;
    assert NodeCheck(f.name, wf[i], calledByParent) == CallCheck(f.name, call, calledByParent);
    assert NodeCheck(g.name, wg[j], calledByParent) == CallCheck(g.name, call, calledByParent);
  }

  /** The parser gives every name and attribute identifier form, and no
      identifier has a dot: only the key checks of the body ever warn. */
  lemma CallRulesSilent(node: Node, calledByParent: Node -> bool)
    requires node.FunctionDef? && IdentifierNames(node)
    ensures forall w | w in AuditCryptography(node, calledByParent).out :: w.WeakKeySize? || w.MissingOperations?
  {
    var walk := Walk(node);
    forall i | 0 <= i < |walk| && walk[i].Call?
      ensures CallCheck(node.name, walk[i], calledByParent).out == []
    {
      if CalleeName(walk[i].func).Ok? {
        var name := CalleeName(walk[i].func).value;
        CalleeIsIdentifier(node, walk[i]);
        if '.' in name {
          IdentifierHasNoDot(name, name);
        }
        UndottedNameNeverFlagged(name);
      }
    }
  }

  /** `key = RSA(bits=1024)` warns about the key size, and `RSA(bits=2048)`
      does not. */
  lemma RsaKeySizes(fn: string)
    ensures KeySizeCheck(fn, "RSA", [Keyword(Some("bits"), Constant(IntLit(1024)))]) == Emit(WeakKeySize(fn, "RSA"))
    ensures KeySizeCheck(fn, "RSA", [Keyword(Some("bits"), Constant(IntLit(2048)))]) == Nothing()
    ensures KeySizeCheck(fn, "RSA", [Keyword(Some("bits"), Constant(IntLit(0)))]) == Nothing()
  {
  }

  /** `key = RSA(bits=1024)` in a function body draws both the key-size
      warning and the missing-operations warning for all four operations. */
  lemma WeakRsaWithoutOperations()
    ensures var stmt := Assign([Name("key")], Call(Name("RSA"), [], [Keyword(Some("bits"), Constant(IntLit(1024)))]));
            StmtCheck("f", stmt).out ==
              [WeakKeySize("f", "RSA"), MissingOperations("f", "RSA", {"encrypt", "decrypt", "sign", "verify"})]
  {
    var kws := [Keyword(Some("bits"), Constant(IntLit(1024)))];
    var stmt := Assign([Name("key")], Call(Name("RSA"), [], kws));
    assert stmt.targets[0] in stmt.targets;
    assert ObservedOps([], kws) == {"bits"};
    assert RequiredOps["RSA"] - {"bits"} == {"encrypt", "decrypt", "sign", "verify"};
    assert KeySizeCheck("f", "RSA", kws) == Emit(WeakKeySize("f", "RSA"));
    assert OpsCheck("f", "RSA", [], kws) == Emit(MissingOperations("f", "RSA", {"encrypt", "decrypt", "sign", "verify"}));
  }
}
