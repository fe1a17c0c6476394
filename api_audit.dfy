/** The API-security checker: a recogniser for API-key header names, and the
    calls of a function definition classified by callee name. Every name it
    compares against is dotted, while the callee name it computes is a
    single identifier, so no branch is ever taken. */
module ApiAudit {
  import opened Outcomes
  import opened Strings
  import opened Ast

  /** The alternatives of the pattern, in lower case. */
  const Prefixes: set<string> := {"api", "access"}
  const Separators: set<string> := {"", "_"}
  const Keywords: set<string> := {"key", "token"}
  /** `$` matches at the end, or before a final line feed. */
  const Endings: set<string> := {"", "\n"}

  /** What is left after the `api|access` alternative, if either matches. */
  function AfterPrefix(t: string): (r: Option<string>)
    ensures r.Some? ==> t == "api" + r.value || t == "access" + r.value
  {
    if StartsWith(t, "api") then Some(t[3..])
    else if StartsWith(t, "access") then Some(t[6..])
    else None
  }

  /** What is left after the optional `_`. */
  function AfterSeparator(t: string): (r: string)
    ensures t == r || t == "_" + r
  {
    if StartsWith(t, "_") then t[1..] else t
  }

  /** `key|token` followed by the end. */
  predicate EndsKeyword(t: string)
  {
    t in {"key", "token", "key\n", "token\n"}
  }

  /** `API_KEY_REGEX.match(s)`: `^(?:api|access)_?(?:key|token)$`, ignoring
      case. Backtracking never helps: the two prefixes cannot both match,
      and leaving the `_` unconsumed leaves a `_` before `key|token`. */
  predicate ApiKeyName(s: string)
  {
    var p := AfterPrefix(Lower(s));
    p.Some? && EndsKeyword(AfterSeparator(p.value))
  }

  lemma AfterPrefixOf(p: string, rest: string)
    requires p in Prefixes
    ensures AfterPrefix(p + rest) == Some(rest)
  {
    var t := p + rest;
    assert t[..|p|] == p && t[|p|..] == rest;
    if p == "access" {
      assert t[..3] == "acc";
    }
  }

  lemma AfterSeparatorOf(u: string, rest: string)
    requires u in Separators && |rest| > 0 && rest[0] != '_'
    ensures AfterSeparator(u + rest) == rest
  {
    var t := u + rest;
    assert t[|u|..] == rest;
    if u == "" {
      assert t == rest;
    }
  }

  /** The recogniser accepts exactly the lower-cased strings made of one
      choice from each alternative, in order. */
  lemma ApiKeyNameIff(s: string)
    ensures ApiKeyName(s) <==>
              exists p, u, k, e | p in Prefixes && u in Separators && k in Keywords && e in Endings ::
                Lower(s) == p + (u + (k + e))
  {
    var t := Lower(s);
    if ApiKeyName(s) {
      var x := AfterPrefix(t).value;
      var p := if t == "api" + x then "api" else "access";
      var y := AfterSeparator(x);
      var u := if x == y then "" else "_";
      var k := if y == "key" || y == "key\n" then "key" else "token";
      var e := if y == "key" || y == "token" then "" else "\n";
      assert y == k + e;
      assert t == p + (u + (k + e));
    }
    if exists p, u, k, e | p in Prefixes && u in Separators && k in Keywords && e in Endings :: t == p + (u + (k + e)) {
      var p, u, k, e :| p in Prefixes && u in Separators && k in Keywords && e in Endings && t == p + (u + (k + e));
      AfterPrefixOf(p, u + (k + e));
      assert (k + e)[0] == k[0];
      AfterSeparatorOf(u, k + e);
      KeywordEnding(k, e);
    }
  }

  lemma KeywordEnding(k: string, e: string)
    requires k in Keywords && e in Endings
    ensures EndsKeyword(k + e)
  {
    if e == "" {
      assert k + e == k;
    } else if k == "key" {
      assert k + e == "key\n";
    } else {
      assert k + e == "token\n";
    }
  }

  /** `"API_KEY"` is a key name. */
  lemma UpperCaseKeyAccepted()
    ensures ApiKeyName("API_KEY")
  {
    var t := Lower("API_KEY");
    assert t == "api" + ("_" + ("key" + ""));
    ApiKeyNameIff("API_KEY");
  }

  /** `"apikeys"` is not: the pattern is anchored at the end. */
  lemma TrailingTextRejected()
    ensures !ApiKeyName("apikeys")
  {
    var t := Lower("apikeys");
    assert t == "api" + "keys";
    AfterPrefixOf("api", "keys");
    AfterSeparatorOf("", "keys");
  }

  /** `"my_api_key"` is not: the pattern is anchored at the start. */
  lemma LeadingTextRejected()
    ensures !ApiKeyName("my_api_key")
  {
    var t := Lower("my_api_key");
    assert t[0] == 'm';
    assert AfterPrefix(t) == None;
  }

  /** The branches of the elif chain on the callee name. */
  datatype ApiBranch = JsonResponse | RequestValidation | BasicAuthLogin | LoginRequired | NoBranch

  function Branch(name: string): (b: ApiBranch)
    ensures b != NoBranch ==> '.' in name
  {
    if name == "flask.jsonify" || name == "django.http.JsonResponse" then JsonResponse
    else if name == "flask.request" then RequestValidation
    else if name == "flask_httpauth.HTTPBasicAuth.login_required" then BasicAuthLogin
    else if name == "flask_login.login_required" then LoginRequired
    else NoBranch
  }

  /** A callee name that is an identifier selects no branch. */
  lemma IdentifierSelectsNoBranch(name: string)
    requires IsIdentifier(name)
    ensures Branch(name) == NoBranch
  {
    if Branch(name) != NoBranch {
      IdentifierHasNoDot(name, name);
      assert false;
    }
  }

  datatype ApiWarning = InsecureJson(fn: string)

  /** The `i`-th pair of a dictionary display is `"status": "success"`. */
  predicate SuccessPair(keys: seq<Node>, values: seq<Node>, i: int)
  {
    0 <= i < |keys| && i < |values| && keys[i] == Constant(StrLit("status")) && values[i] == Constant(StrLit("success"))
  }

  /** The scan raises at the `i`-th pair: no earlier pair is the success
      pair, and the key is not a constant, or it is `"status"` and the
      value is not a constant. */
  predicate ReadFailsAt(keys: seq<Node>, values: seq<Node>, i: int)
  {
    && 0 <= i < |keys| && i < |values|
    && (!keys[i].Constant? || (keys[i].lit == StrLit("status") && !values[i].Constant?))
    && forall j | 0 <= j < i :: !SuccessPair(keys, values, j)
  }

  /** Past a first pair that neither raises nor matches, the scan raises
      at a pair exactly when it raises there in the rest. */
  lemma ReadFailsShift(keys: seq<Node>, values: seq<Node>)
    requires keys != [] && values != []
    requires keys[0].Constant? && !(keys[0].lit == StrLit("status") && !values[0].Constant?)
    requires !SuccessPair(keys, values, 0)
    ensures (exists i :: ReadFailsAt(keys, values, i)) <==> (exists i :: ReadFailsAt(keys[1..], values[1..], i))
    ensures (exists i :: SuccessPair(keys, values, i)) <==> (exists i :: SuccessPair(keys[1..], values[1..], i))
  {
    var ks, vs := keys[1..], values[1..];
    forall j | 0 <= j < |ks| && j < |vs| ensures SuccessPair(ks, vs, j) <==> SuccessPair(keys, values, j + 1) {
    }
    if i :| ReadFailsAt(keys, values, i) {
      assert ReadFailsAt(ks, vs, i - 1);
    }
    if i :| ReadFailsAt(ks, vs, i) {
      forall j | 0 <= j < i + 1 ensures !SuccessPair(keys, values, j) {
        if j > 0 {
          assert !SuccessPair(ks, vs, j - 1);
        }
      }
      assert ReadFailsAt(keys, values, i + 1);
    }
    if i :| SuccessPair(keys, values, i) {
      assert SuccessPair(ks, vs, i - 1);
    }
    if i :| SuccessPair(ks, vs, i) {
      assert SuccessPair(keys, values, i + 1);
    }
  }

  /** `any(key.s == "status" and value.s == "success" ...)` over the pairs
      of a dictionary display: reading `.s` of a node that is not a
      constant raises AttributeError, and `value.s` is read only after the
      key matched. */
  function HasSuccessStatus(keys: seq<Node>, values: seq<Node>): (r: Result<bool>)
    ensures r == Ok(true) ==> exists i :: SuccessPair(keys, values, i)
    ensures r.Ok? ==> r.value == exists i :: SuccessPair(keys, values, i)
    ensures (forall i | 0 <= i < |keys| && i < |values| :: keys[i].Constant? && values[i].Constant?) ==>
              r == Ok(exists i :: SuccessPair(keys, values, i))
    ensures r.Fail? <==> exists i :: ReadFailsAt(keys, values, i)
    ensures r.Fail? ==> r.error == AttributeError
    decreases |keys|
  {
    if keys == [] || values == [] then Ok(false)
    else
      var ks, vs := keys[1..], values[1..];
      assert forall i | 1 <= i < |keys| && i < |values| :: ks[i - 1] == keys[i] && vs[i - 1] == values[i];
      assert forall i | 0 <= i < |ks| && i < |vs| :: SuccessPair(ks, vs, i) <==> SuccessPair(keys, values, i + 1);
      if !keys[0].Constant? then
        assert ReadFailsAt(keys, values, 0);
        Fail(AttributeError)
      else if keys[0].lit != StrLit("status") then
        ReadFailsShift(keys, values);
        HasSuccessStatus(ks, vs)
      else if !values[0].Constant? then
        assert ReadFailsAt(keys, values, 0);
        Fail(AttributeError)
      else if values[0].lit == StrLit("success") then
        assert SuccessPair(keys, values, 0);
        assert forall i :: !ReadFailsAt(keys, values, i);
        Ok(true)
      else
        ReadFailsShift(keys, values);
        HasSuccessStatus(ks, vs)
  }

  /** The checks on one call. Only the JSON-response branch is modelled;
      the other three look at the call's ancestors. */
  function CallCheck(fn: string, call: Node): (r: Report<ApiWarning>)
    requires call.Call?
    ensures CalleeName(call.func).Fail? ==> r == Abort(AttributeError)
    ensures !r.Finished() ==> r.error == Some(AttributeError)
    ensures CalleeName(call.func).Ok? && Branch(CalleeName(call.func).value) != JsonResponse ==> r == Nothing()
    ensures r.out != [] ==> r.out == [InsecureJson(fn)] && Branch(CalleeName(call.func).value) == JsonResponse
    ensures CalleeName(call.func).Ok? && Branch(CalleeName(call.func).value) == JsonResponse ==>
              if |call.args| > 0 && call.args[0].Dict? then
                var found := HasSuccessStatus(call.args[0].keys, call.args[0].values);
                (r.Finished() <==> found.Ok?) && (r.out != [] <==> found == Ok(false))
              else r == Nothing()
  {
    match CalleeName(call.func)
    case Fail(e) => Abort(e)
    case Ok(name) =>
      if Branch(name) == JsonResponse && |call.args| > 0 && call.args[0].Dict? then
        match HasSuccessStatus(call.args[0].keys, call.args[0].values)
        case Fail(e) => Abort(e)
        case Ok(found) => EmitIf(!found, InsecureJson(fn))
      else Nothing()
  }

  function NodeCheck(fn: string, n: Node): Report<ApiWarning>
  {
    if n.Call? then CallCheck(fn, n) else Nothing()
  }

  /** A node the check gets through without raising: not a call, or a call
      whose callee has a name and, in the JSON branch with a dictionary
      first argument, whose pairs the success scan reads without raising. */
  predicate ApiReadable(n: Node)
  {
    n.Call? ==>
      CalleeName(n.func).Ok?
      && (Branch(CalleeName(n.func).value) == JsonResponse && |n.args| > 0 && n.args[0].Dict? ==>
            HasSuccessStatus(n.args[0].keys, n.args[0].values).Ok?)
  }

  /** `w` is printed by the check of a walked call in the JSON-response
      branch. */
  predicate FromApiCall(fn: string, walk: seq<Node>, w: ApiWarning)
  {
    exists i | 0 <= i < |walk| ::
      walk[i].Call? && CalleeName(walk[i].func).Ok? && Branch(CalleeName(walk[i].func).value) == JsonResponse
      && w in CallCheck(fn, walk[i]).out
  }

  /** Every warning the check of a call of `walk` prints is in `out`. */
  predicate ReportsApiCalls(fn: string, walk: seq<Node>, out: seq<ApiWarning>)
  {
    forall i, w | 0 <= i < |walk| && walk[i].Call? && w in CallCheck(fn, walk[i]).out :: w in out
  }

  /** `audit_api_security`: every call in the subtree of a function
      definition; any other node gives nothing. It finishes exactly when
      every node is readable, so a call whose callee is neither a name nor
      an attribute stops it with AttributeError; when it finishes it prints
      every warning of every call. */
  function AuditApiSecurity(node: Node): (r: Report<ApiWarning>)
    ensures !node.FunctionDef? ==> r == Nothing()
    ensures node.FunctionDef? ==> forall w | w in r.out :: FromApiCall(node.name, Walk(node), w)
    ensures node.FunctionDef? && r.Finished() ==> CalleesNamed(Walk(node))
    ensures node.FunctionDef? ==> (r.Finished() <==> forall i | 0 <= i < |Walk(node)| :: ApiReadable(Walk(node)[i]))
    ensures node.FunctionDef? && r.Finished() ==> ReportsApiCalls(node.name, Walk(node), r.out)
  {
    if node.FunctionDef? then
      var walk := Walk(node);
      var r := ForEach(walk, (n: Node) => NodeCheck(node.name, n));
      forall i | 0 <= i < |walk| ensures NodeCheck(node.name, walk[i]).Finished() <==> ApiReadable(walk[i]) {
        NodeCheckFinishes(node.name, walk[i]);
      }
      assert forall w | w in r.out :: FromApiCall(node.name, walk, w) by {
        forall w | w in r.out ensures FromApiCall(node.name, walk, w) {
          var i :| 0 <= i < |walk| && w in NodeCheck(node.name, walk[i]).out;
          assert walk[i].Call?;
        }
      }
      r
    else Nothing()
  }

  /** The check of one node raises exactly when the node is not readable. */
  lemma NodeCheckFinishes(fn: string, n: Node)
    ensures NodeCheck(fn, n).Finished() <==> ApiReadable(n)
  {
  }

  /** The parser gives every name and attribute identifier form, so the
      checker never reports anything. */
  lemma ApiAuditSilent(node: Node)
    requires IdentifierNames(node)
    ensures AuditApiSecurity(node).out == []
    ensures node.FunctionDef? ==> (AuditApiSecurity(node).Finished() <==> CalleesNamed(Walk(node)))
  {
    if node.FunctionDef? {
      var walk := Walk(node);
      forall i | 0 <= i < |walk|
        ensures NodeCheck(node.name, walk[i]).out == []
        ensures NodeCheck(node.name, walk[i]).Finished() <==> (walk[i].Call? ==> CalleeName(walk[i].func).Ok?)
      {
        var n := walk[i];
        if n.Call? && CalleeName(n.func).Ok? {
          CalleeIsIdentifier(node, n);
          IdentifierSelectsNoBranch(CalleeName(n.func).value);
        }
      }
      assert AuditApiSecurity(node) == ForEach(walk, (n: Node) => NodeCheck(node.name, n));
    }
  }
}
