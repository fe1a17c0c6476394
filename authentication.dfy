/** The authentication and authorization checker: literal arguments of
    `authenticate` and `authorize` calls, and the keys of an authorization
    dictionary. */
module Authentication {
  import opened Outcomes
  import opened Strings
  import opened Ast

  datatype AuthWarning =
    | UnsaltedHashing(fn: string)
    | InsecureSession(fn: string)
    | UncheckedKeys(fn: string, keys: seq<string>)

  /** `any(h in s for h in ["bcrypt", "scrypt", "argon2"])`, case-sensitive. */
  predicate NamesSaltedHash(s: string)
  {
    ContainsAny(s, ["bcrypt", "scrypt", "argon2"])
  }

  /** `"secure" in s.lower()`. */
  predicate NamesSecureSession(s: string)
  {
    Contains(Lower(s), "secure")
  }

  /** A lower-cased key that mentions an allow or deny rule. */
  predicate NamesRule(key: string)
  {
    ContainsAny(Lower(key), ["allow", "deny"])
  }

  /** `key.s.lower()` for one dictionary key: a string key passes; a bytes
      key has a `lower` but `"allow" in` it raises TypeError; any other
      constant has no `lower` and any other node no `s` (AttributeError). */
  function KeyText(key: Node): (r: Result<string>)
    ensures r.Ok? <==> IsStr(key)
    ensures r.Ok? ==> r.value == key.lit.s
    ensures r.Fail? ==> r.error == if key.Constant? && key.lit.BytesLit? then TypeError else AttributeError
  {
    if !key.Constant? then Fail(AttributeError)
    else match key.lit
      case StrLit(s) => Ok(s)
      case BytesLit(_) => Fail(TypeError)
      case _ => Fail(AttributeError)
  }

  /** A key that mentions neither an allow nor a deny rule. */
  predicate Unchecked(key: string)
  {
    !NamesRule(key)
  }

  /** The texts of the string keys, position by position (`""` stands in
      for a key that is not a string). */
  function KeyTexts(keys: seq<Node>): (r: seq<string>)
    ensures |r| == |keys|
    ensures forall i | 0 <= i < |keys| && IsStr(keys[i]) :: r[i] == keys[i].lit.s
  {
    seq(|keys|, i requires 0 <= i < |keys| => if IsStr(keys[i]) then keys[i].lit.s else "")
  }

  /** The `i`-th key is the first that is not a string. */
  predicate FirstNonString(keys: seq<Node>, i: int)
  {
    0 <= i < |keys| && !IsStr(keys[i]) && forall j | 0 <= j < i :: IsStr(keys[j])
  }

  /** `unchecked_keys`: the string keys, in order, that mention neither an
      allow nor a deny rule; the first key that is not a string raises. */
  function SelectUnchecked(keys: seq<Node>): (r: Result<seq<string>>)
    ensures r.Ok? <==> forall i | 0 <= i < |keys| :: IsStr(keys[i])
    ensures r.Ok? ==> |r.value| <= |keys|
    ensures r.Ok? ==> forall x ::
              x in r.value <==> exists i | 0 <= i < |keys| :: keys[i] == Constant(StrLit(x)) && !NamesRule(x)
    ensures r.Ok? ==> r.value == Filter(KeyTexts(keys), Unchecked)
    ensures r.Fail? ==> exists i :: FirstNonString(keys, i) && r == Fail(KeyText(keys[i]).error)
    decreases |keys|
  {
    if keys == [] then Ok([])
    else
      assert forall i | 1 <= i < |keys| :: keys[1..][i - 1] == keys[i];
      match KeyText(keys[0])
      case Fail(e) =>
        assert FirstNonString(keys, 0);
        Fail(e)
      case Ok(s) =>
        match SelectUnchecked(keys[1..])
        case Fail(e) =>
          assert exists i :: FirstNonString(keys, i) && e == KeyText(keys[i]).error by {
            var i :| FirstNonString(keys[1..], i) && e == KeyText(keys[1..][i]).error;
            assert FirstNonString(keys, i + 1);
          }
          Fail(e)
        case Ok(rest) =>
          assert KeyTexts(keys)[0] == s;
          assert KeyTexts(keys)[1..] == KeyTexts(keys[1..]);
          Ok((if NamesRule(s) then [] else [s]) + rest)
  }

  /** The permissive-rule lists read `rule.parent`, which no node has: as
      soon as one dictionary value is a constant equal to `True` the check
      raises AttributeError, and otherwise both lists are empty and nothing
      is printed. */
  function RulesCheck(values: seq<Node>): (r: Report<AuthWarning>)
    ensures r.out == []
    ensures r.Finished() <==> forall i | 0 <= i < |values| :: !(values[i].Constant? && EqualsTrue(values[i].lit))
  {
    if exists i | 0 <= i < |values| :: values[i].Constant? && EqualsTrue(values[i].lit) then Abort(AttributeError)
    else Nothing()
  }

  /** The dictionary check: warn once, listing the unchecked keys, when
      there are any; then the rule lists. */
  function DictCheck(fn: string, d: Node): (r: Report<AuthWarning>)
    requires d.Dict?
    ensures SelectUnchecked(d.keys).Fail? ==> r == Abort(SelectUnchecked(d.keys).error)
    ensures SelectUnchecked(d.keys).Ok? ==>
              r.out == (if SelectUnchecked(d.keys).value == [] then [] else [UncheckedKeys(fn, SelectUnchecked(d.keys).value)])
    ensures r.Finished() ==> forall w | w in r.out :: w.UncheckedKeys? && w.keys != []
  {
    match SelectUnchecked(d.keys)
    case Fail(e) => Abort(e)
    case Ok(unchecked) =>
      Then(if unchecked != [] then Emit(UncheckedKeys(fn, unchecked)) else Nothing(), RulesCheck(d.values))
  }

  /** The checks on one call. None runs unless the callee is named
      `authenticate` or `authorize`, and each skips a missing or
      non-literal argument. */
  function CallCheck(fn: string, call: Node): (r: Report<AuthWarning>)
    requires call.Call?
    ensures CalleeName(call.func).Fail? ==> r == Abort(AttributeError)
    ensures CalleeName(call.func).Ok? && CalleeName(call.func).value !in ["authenticate", "authorize"] ==> r == Nothing()
    ensures CalleeName(call.func).Ok? && CalleeName(call.func).value == "authenticate" ==>
              r == EmitIf(|call.args| > 0 && IsStr(call.args[0]) && !NamesSaltedHash(call.args[0].lit.s),
                          UnsaltedHashing(fn))
    ensures CalleeName(call.func).Ok? && CalleeName(call.func).value == "authorize" ==>
              r == Then(EmitIf(|call.args| > 0 && IsStr(call.args[0]) && !NamesSecureSession(call.args[0].lit.s),
                               InsecureSession(fn)),
                        if |call.args| > 1 && call.args[1].Dict? then DictCheck(fn, call.args[1]) else Nothing())
  {
    match CalleeName(call.func)
    case Fail(e) => Abort(e)
    case Ok(name) =>
      if name == "authenticate" then
        if |call.args| > 0 && IsStr(call.args[0]) && !NamesSaltedHash(call.args[0].lit.s) then Emit(UnsaltedHashing(fn))
        else Nothing()
      else if name == "authorize" then
        var session := if |call.args| > 0 && IsStr(call.args[0]) && !NamesSecureSession(call.args[0].lit.s)
                       then Emit(InsecureSession(fn)) else Nothing();
        var dict := if |call.args| > 1 && call.args[1].Dict? then DictCheck(fn, call.args[1]) else Nothing();
        Then(session, dict)
      else Nothing()
  }

  function NodeCheck(fn: string, n: Node): Report<AuthWarning>
  {
    if n.Call? then CallCheck(fn, n) else Nothing()
  }

  /** A node the check gets through without raising: not a call, or a call
      whose callee has a name and, for an `authorize` call whose second
      argument is a dictionary, whose dictionary keys are all strings and
      none of whose values is a constant equal to `True`. */
  predicate AuthReadable(n: Node)
  {
    n.Call? ==>
      CalleeName(n.func).Ok?
      && (CalleeName(n.func).value == "authorize" && |n.args| > 1 && n.args[1].Dict? ==>
            (forall j | 0 <= j < |n.args[1].keys| :: IsStr(n.args[1].keys[j]))
            && forall j | 0 <= j < |n.args[1].values| :: !(n.args[1].values[j].Constant? && EqualsTrue(n.args[1].values[j].lit)))
  }

  /** Every warning the check of a call of `walk` prints is in `out`. */
  predicate ReportsAuthCalls(fn: string, walk: seq<Node>, out: seq<AuthWarning>)
  {
    forall i, w | 0 <= i < |walk| && walk[i].Call? && w in CallCheck(fn, walk[i]).out :: w in out
  }

  /** `audit_auth_and_authz`: every call in the subtree of a function
      definition; any other node gives nothing. It finishes exactly when
      every node is readable, and then it prints every warning of every
      call and nothing else. */
  function AuditAuth(node: Node): (r: Report<AuthWarning>)
    ensures !node.FunctionDef? ==> r == Nothing()
    ensures node.FunctionDef? ==> forall w | w in r.out :: FromAuthCall(node.name, Walk(node), w)
    ensures node.FunctionDef? ==> (r.Finished() <==> forall i | 0 <= i < |Walk(node)| :: AuthReadable(Walk(node)[i]))
    ensures node.FunctionDef? && r.Finished() ==> ReportsAuthCalls(node.name, Walk(node), r.out)
  {
    if node.FunctionDef? then
      var walk := Walk(node);
      var r := ForEach(walk, (n: Node) => NodeCheck(node.name, n));
      assert forall w | w in r.out :: FromAuthCall(node.name, walk, w) by {
        forall w | w in r.out ensures FromAuthCall(node.name, walk, w) {
          var i :| 0 <= i < |walk| && w in NodeCheck(node.name, walk[i]).out;
          assert walk[i].Call?;
        }
      }
      forall i | 0 <= i < |walk| ensures NodeCheck(node.name, walk[i]).Finished() <==> AuthReadable(walk[i]) {
        NodeCheckFinishes(node.name, walk[i]);
      }
      r
    else Nothing()
  }

  /** The check of one node raises exactly when the node is not readable. */
  lemma NodeCheckFinishes(fn: string, n: Node)
    ensures NodeCheck(fn, n).Finished() <==> AuthReadable(n)
  {
    if n.Call? && CalleeName(n.func).Ok? && CalleeName(n.func).value == "authorize" && |n.args| > 1 && n.args[1].Dict? {
      var d := n.args[1];
      assert NodeCheck(fn, n).Finished() <==> DictCheck(fn, d).Finished();
      assert DictCheck(fn, d).Finished() <==> SelectUnchecked(d.keys).Ok? && RulesCheck(d.values).Finished();
    }
  }

  /** `w` is printed by the check of a call of `walk` to `authenticate` or
      `authorize`. */
  predicate FromAuthCall(fn: string, walk: seq<Node>, w: AuthWarning)
  {
    exists i | 0 <= i < |walk| ::
      && walk[i].Call? && CalleeName(walk[i].func).Ok?
      && CalleeName(walk[i].func).value in ["authenticate", "authorize"]
      && w in CallCheck(fn, walk[i]).out
  }

  /** A key is left out of `unchecked_keys` only because it mentions a
      rule: every string key absent from the list names one. */
  lemma OmittedKeysNameRules(keys: seq<Node>, i: int)
    requires SelectUnchecked(keys).Ok? && 0 <= i < |keys|
    requires keys[i].lit.s !in SelectUnchecked(keys).value
    ensures NamesRule(keys[i].lit.s)
  {
    assert IsStr(keys[i]);
    assert keys[i] == Constant(StrLit(keys[i].lit.s));
  }

  /** The session check ignores case: `"SecureSession"` passes and
      `"token"` warns. */
  lemma SessionCheckIgnoresCase()
    ensures NamesSecureSession("SecureSession")
    ensures !NamesSecureSession("token")
  {
    assert Lower("SecureSession")[..6] == "secure";
    assert OccursAt(Lower("SecureSession"), "secure", 0);
    var l := Lower("token");
    forall i: nat | i <= |l| ensures !OccursAt(l, "secure", i) {
    }
  }
}
