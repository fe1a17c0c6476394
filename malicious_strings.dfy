/** The malicious-string checker: a string literal that names code
    execution, or one used among dangerous module or function names. */
module MaliciousStrings {
  import opened Outcomes
  import opened Strings
  import opened Ast

  datatype StringWarning = MaliciousString | MaliciousModule | MaliciousFunction

  /** `MALICIOUS_REGEX`, `exec|eval|subprocess|shell|os\.`, searched
      case-insensitively. */
  const MaliciousWords: seq<string> := ["exec", "eval", "subprocess", "shell", "os."]

  const DangerousModules: set<string> := {"subprocess", "os", "shutil", "sys"}

  const DangerousFunctions: set<string> := {"eval", "exec", "input", "open", "__import__"}

  /** The case-insensitive search: every word is lower-case, so it occurs
      in the literal ignoring case exactly when it occurs in the
      lower-cased literal. */
  predicate NamesExecution(s: string)
  {
    ContainsAny(Lower(s), MaliciousWords)
  }

  /** `audit_malicious_strings` on one node. `context` is the set of names
      of the literal's parent, or None when reading them raises
      AttributeError, which the checker swallows. The first loop looks
      for a dangerous module and stops at the first; only when it finds
      none does the second loop look for a dangerous function. */
  function MaliciousStringCheck(n: Node, context: Option<set<string>>): (r: seq<StringWarning>)
    ensures |r| <= 1
    ensures !IsStr(n) ==> r == []
    ensures r == [MaliciousString] <==> IsStr(n) && NamesExecution(n.lit.s)
    ensures r == [MaliciousModule] <==>
              IsStr(n) && !NamesExecution(n.lit.s) && context.Some? && context.value * DangerousModules != {}
    ensures r == [MaliciousFunction] <==>
              && IsStr(n) && !NamesExecution(n.lit.s) && context.Some?
              && context.value * DangerousModules == {} && context.value * DangerousFunctions != {}
  {
    if !IsStr(n) then []
    else if NamesExecution(n.lit.s) then [MaliciousString]
    else if context.None? then []
    else if context.value * DangerousModules != {} then [MaliciousModule]
    else if context.value * DangerousFunctions != {} then [MaliciousFunction]
    else []
  }

  /** Nothing is reported about the context when the parent's names cannot
      be read, whatever the literal. */
  lemma NoContextNoContextWarning(n: Node)
    ensures MaliciousStringCheck(n, None) == (if IsStr(n) && NamesExecution(n.lit.s) then [MaliciousString] else [])
  {
  }

  /** The search ignores case: `"OS.system"` is reported; `"cosine"` has
      `os` but no `os.` and is not. */
  lemma CaseInsensitiveExamples()
    ensures NamesExecution("OS.system")
    ensures !NamesExecution("cosine")
  {
    assert Lower("OS.system")[..3] == "os.";
    assert OccursAt(Lower("OS.system"), MaliciousWords[4], 0);
    var l := Lower("cosine");
    forall k | 0 <= k < |MaliciousWords|
      ensures !Contains(l, MaliciousWords[k])
    {
      forall i: nat | i <= |l| ensures !OccursAt(l, MaliciousWords[k], i) {
        OccurrenceHoldsChar(l, MaliciousWords[k], i, if k == 4 then 2 else 1);
      }
    }
  }

  /** A module name in the context wins over a function name: with both
      `os` and `eval` among the names, only the module is reported. */
  lemma ModulesBeforeFunctions(n: Node)
    requires IsStr(n) && !NamesExecution(n.lit.s)
    ensures MaliciousStringCheck(n, Some({"os", "eval"})) == [MaliciousModule]
    ensures MaliciousStringCheck(n, Some({"eval"})) == [MaliciousFunction]
    ensures MaliciousStringCheck(n, Some({"print"})) == []
  {
    assert "os" in {"os", "eval"} * DangerousModules;
    assert "eval" in {"eval"} * DangerousFunctions;
    assert {"eval"} * DangerousModules == {};
    assert {"print"} * DangerousModules == {};
    assert {"print"} * DangerousFunctions == {};
  }
}
