/** The secure-communication checker: calls whose name mentions a network
    library are checked for a plain-text protocol in their first argument,
    for `verify=False` on `requests`, and for TLS-related keyword arguments. */
module SecureCommunications {
  import opened Outcomes
  import opened Strings
  import opened Ast

  datatype CommWarning =
    | InsecureProtocol(fn: string)
    | NoCertificateCheck(fn: string)
    | InsecureKeywords(fn: string, names: seq<string>)

  /** `socket|httplib|urllib|requests`, searched anywhere in the name. */
  predicate IsCommName(name: string)
  {
    ContainsAny(name, ["socket", "httplib", "urllib", "requests"])
  }

  /** `http://|ftp://|telnet://`, searched anywhere in the literal. */
  predicate IsInsecureProtocol(s: string)
  {
    ContainsAny(s, ["http://", "ftp://", "telnet://"])
  }

  /** `(cafile|capath|certfile|keyfile|cert_reqs|ssl_version|context|verify)`,
      searched anywhere in a keyword name. */
  predicate IsInsecureKeyword(arg: string)
  {
    ContainsAny(arg, ["cafile", "capath", "certfile", "keyfile", "cert_reqs", "ssl_version", "context", "verify"])
  }

  /** The protocol check: a first positional argument that is a string
      literal naming a plain-text protocol. */
  function ProtocolCheck(fn: string, args: seq<Node>): (r: Report<CommWarning>)
    ensures r.Finished() && |r.out| <= 1
    ensures r.out != [] <==> |args| > 0 && IsStr(args[0]) && IsInsecureProtocol(args[0].lit.s)
    ensures forall w | w in r.out :: w == InsecureProtocol(fn)
  {
    if |args| > 0 && IsStr(args[0]) && IsInsecureProtocol(args[0].lit.s) then Emit(InsecureProtocol(fn))
    else Nothing()
  }

  /** A `verify=` keyword whose value is a falsy constant. */
  predicate DisablesVerification(k: Keyword)
  {
    k.arg == Some("verify") && k.value.Constant? && !Truthy(k.value.lit)
  }

  /** The certificate check runs only for a callee named exactly `requests`
      that has keyword arguments. */
  function VerifyCheck(fn: string, name: string, kws: seq<Keyword>): (r: Report<CommWarning>)
    ensures r.Finished()
    ensures name != "requests" ==> r.out == []
    ensures name == "requests" ==> r.out == OnePerMatch(kws, DisablesVerification, NoCertificateCheck(fn))
    ensures forall w | w in r.out :: w == NoCertificateCheck(fn)
    ensures |r.out| <= |Matches(kws, DisablesVerification)|
  {
    if name == "requests" && |kws| > 0 then Report(OnePerMatch(kws, DisablesVerification, NoCertificateCheck(fn)), None)
    else Nothing()
  }

  /** Some keyword argument has no name (`**kwargs`). */
  predicate HasUnnamedKeyword(kws: seq<Keyword>)
  {
    exists i | 0 <= i < |kws| :: kws[i].arg.None?
  }

  /** `x` is the name of a keyword argument and matches the TLS pattern. */
  predicate NamesInsecureKeyword(kws: seq<Keyword>, x: string)
  {
    exists i | 0 <= i < |kws| :: kws[i].arg == Some(x) && IsInsecureKeyword(x)
  }

  /** The keyword names the loop collects, in call order. `re.search` on
      the missing name of a `**kwargs` argument raises TypeError. */
  function SelectInsecure(kws: seq<Keyword>): (r: Result<seq<string>>)
    ensures r.Fail? <==> HasUnnamedKeyword(kws)
    ensures r.Fail? ==> r == Fail(TypeError)
    ensures r.Ok? ==> |r.value| <= |kws|
    ensures r.Ok? ==> forall x :: x in r.value <==> NamesInsecureKeyword(kws, x)
    ensures r.Ok? ==> r.value == Filter(ArgNames(kws), IsInsecureKeyword)
    decreases |kws|
  {
    if kws == [] then Ok([])
    else
      var init := kws[..|kws| - 1];
      var last := kws[|kws| - 1];
      UnnamedOfPrefix(kws);
      match SelectInsecure(init)
      case Fail(e) => Fail(e)
      case Ok(names) =>
        if last.arg.None? then Fail(TypeError)
        else
          var x := last.arg.value;
          FilterOfPrefix(kws, names);
          var selected := if IsInsecureKeyword(x) then names + [x] else names;
          InsecureMembers(kws, selected);
          Ok(selected)
  }

  /** A keyword list has an unnamed argument when its prefix has one or
      its last argument is unnamed. */
  lemma UnnamedOfPrefix(kws: seq<Keyword>)
    requires kws != []
    ensures HasUnnamedKeyword(kws) <==> HasUnnamedKeyword(kws[..|kws| - 1]) || kws[|kws| - 1].arg.None?
  {
    var init := kws[..|kws| - 1];
    assert forall i | 0 <= i < |init| :: init[i] == kws[i];
  }

  /** Selecting over one more named keyword argument appends its name when
      it matches. */
  lemma FilterOfPrefix(kws: seq<Keyword>, names: seq<string>)
    requires kws != [] && kws[|kws| - 1].arg.Some?
    requires names == Filter(ArgNames(kws[..|kws| - 1]), IsInsecureKeyword)
    ensures var x := kws[|kws| - 1].arg.value;
            Filter(ArgNames(kws), IsInsecureKeyword) == if IsInsecureKeyword(x) then names + [x] else names
  {
    var init := kws[..|kws| - 1];
    var x := kws[|kws| - 1].arg.value;
    assert ArgNames(kws) == ArgNames(init) + [x];
    FilterAppend(ArgNames(init), [x], IsInsecureKeyword);
    assert [x][1..] == [];
  }

  /** The order-preserving selection holds exactly the insecure names of
      the keyword arguments. */
  lemma InsecureMembers(kws: seq<Keyword>, names: seq<string>)
    requires forall i | 0 <= i < |kws| :: kws[i].arg.Some?
    requires names == Filter(ArgNames(kws), IsInsecureKeyword)
    ensures forall x :: x in names <==> NamesInsecureKeyword(kws, x)
  {
    var args := ArgNames(kws);
    forall x ensures x in names <==> NamesInsecureKeyword(kws, x) {
      if x in names {
        var j :| 0 <= j < |names| && names[j] == x;
        var i :| 0 <= i < |args| && args[i] == x;
        assert kws[i].arg == Some(x);
      }
      if i :| 0 <= i < |kws| && kws[i].arg == Some(x) && IsInsecureKeyword(x) {
        assert args[i] == x;
      }
    }
  }

  /** The loop building `insecure_kwargs` by appending, proved to compute
      the selection above. */
  method InsecureKwargs(kws: seq<Keyword>) returns (r: Result<seq<string>>)
    ensures r == SelectInsecure(kws)
  {
    var names: seq<string> := [];
    var i := 0;
    while i < |kws|
      invariant 0 <= i <= |kws|
      invariant SelectInsecure(kws[..i]) == Ok(names)
    {
      SelectInsecureStep(kws, i);
      var arg := kws[i].arg;
      if arg.None? {
        return Fail(TypeError);
      }
      if IsInsecureKeyword(arg.value) {
        names := names + [arg.value];
      }
      i := i + 1;
    }
    assert kws[..i] == kws;
    return Ok(names);
  }

  /** One more keyword extends the selection so far, or fails it. */
  lemma SelectInsecureStep(kws: seq<Keyword>, i: int)
    requires 0 <= i < |kws|
    ensures SelectInsecure(kws[..i + 1]) ==
              match SelectInsecure(kws[..i])
              case Fail(e) => Fail(e)
              case Ok(names) =>
                if kws[i].arg.None? then Fail(TypeError)
                else if IsInsecureKeyword(kws[i].arg.value) then Ok(names + [kws[i].arg.value])
                else Ok(names)
  {
    var pre := kws[..i + 1];
    assert pre[..|pre| - 1] == kws[..i];
    assert pre[|pre| - 1] == kws[i];
  }

  function KeywordsCheck(fn: string, kws: seq<Keyword>): (r: Report<CommWarning>)
    ensures r.Finished() <==> SelectInsecure(kws).Ok?
    ensures r.Finished() ==>
              (r.out == [] <==> SelectInsecure(kws).value == [])
              && (r.out != [] ==> r.out == [InsecureKeywords(fn, SelectInsecure(kws).value)])
  {
    match SelectInsecure(kws)
    case Fail(e) => Abort(e)
    case Ok(names) => if names != [] then Emit(InsecureKeywords(fn, names)) else Nothing()
  }

  /** The three checks on one call, in source order; none runs unless the
      callee's name mentions a network library. */
  function CallCheck(fn: string, call: Node): (r: Report<CommWarning>)
    requires call.Call?
    ensures CalleeName(call.func).Fail? ==> r == Abort(AttributeError)
    ensures CalleeName(call.func).Ok? && !IsCommName(CalleeName(call.func).value) ==> r == Nothing()
    ensures CalleeName(call.func).Ok? && IsCommName(CalleeName(call.func).value) ==>
              r == Then(ProtocolCheck(fn, call.args),
                        Then(VerifyCheck(fn, CalleeName(call.func).value, call.keywords),
                             KeywordsCheck(fn, call.keywords)))
  {
    match CalleeName(call.func)
    case Fail(e) => Abort(e)
    case Ok(name) =>
      if IsCommName(name) then
        Then(ProtocolCheck(fn, call.args), Then(VerifyCheck(fn, name, call.keywords), KeywordsCheck(fn, call.keywords)))
      else Nothing()
  }

  function NodeCheck(fn: string, n: Node): Report<CommWarning>
  {
    if n.Call? then CallCheck(fn, n) else Nothing()
  }

  /** `w` is printed by the check of a call of `walk` whose callee's name
      mentions a network library. */
  predicate FromCommCall(fn: string, walk: seq<Node>, w: CommWarning)
  {
    exists i | 0 <= i < |walk| ::
      walk[i].Call? && CalleeName(walk[i].func).Ok? && IsCommName(CalleeName(walk[i].func).value)
      && w in CallCheck(fn, walk[i]).out
  }

  /** A node the check gets through without raising: not a call, or a call
      whose callee has a name and, when that name mentions a network
      library, whose keyword arguments all have names (no `**kwargs`). */
  predicate CommReadable(n: Node)
  {
    n.Call? ==>
      CalleeName(n.func).Ok?
      && (IsCommName(CalleeName(n.func).value) ==> forall j | 0 <= j < |n.keywords| :: n.keywords[j].arg.Some?)
  }

  /** Every warning the check of a call of `walk` prints is in `out`. */
  predicate ReportsCommCalls(fn: string, walk: seq<Node>, out: seq<CommWarning>)
  {
    forall i, w | 0 <= i < |walk| && walk[i].Call? && w in CallCheck(fn, walk[i]).out :: w in out
  }

  /** `audit_secure_communication`: every call in the subtree of a function
      definition; any other node gives nothing. It finishes exactly when
      every node is readable, and then it prints every warning of every
      call and nothing else. */
  function AuditSecureCommunication(node: Node): (r: Report<CommWarning>)
    ensures !node.FunctionDef? ==> r == Nothing()
    ensures node.FunctionDef? ==> forall w | w in r.out :: FromCommCall(node.name, Walk(node), w)
    ensures node.FunctionDef? ==> (r.Finished() <==> forall i | 0 <= i < |Walk(node)| :: CommReadable(Walk(node)[i]))
    ensures node.FunctionDef? && r.Finished() ==> ReportsCommCalls(node.name, Walk(node), r.out)
  {
    if node.FunctionDef? then
      var walk := Walk(node);
      var r := ForEach(walk, (n: Node) => NodeCheck(node.name, n));
      assert forall w | w in r.out :: FromCommCall(node.name, walk, w) by {
        forall w | w in r.out ensures FromCommCall(node.name, walk, w) {
          var i :| 0 <= i < |walk| && w in NodeCheck(node.name, walk[i]).out;
          WarningsNeedCommName(node.name, walk[i]);
        }
      }
      forall i | 0 <= i < |walk| ensures NodeCheck(node.name, walk[i]).Finished() <==> CommReadable(walk[i]) {
        NodeCheckFinishes(node.name, walk[i]);
      }
      r
    else Nothing()
  }

  /** The check of one node raises exactly when the node is not readable. */
  lemma NodeCheckFinishes(fn: string, n: Node)
    ensures NodeCheck(fn, n).Finished() <==> CommReadable(n)
  {
    if n.Call? && CalleeName(n.func).Ok? && IsCommName(CalleeName(n.func).value) {
      assert NodeCheck(fn, n).Finished() <==> SelectInsecure(n.keywords).Ok?;
    }
  }

  /** Every warning about a call names a call whose callee mentions a
      network library. */
  lemma WarningsNeedCommName(fn: string, call: Node)
    requires call.Call? && CallCheck(fn, call).out != []
    ensures CalleeName(call.func).Ok? && IsCommName(CalleeName(call.func).value)
  {
  }

  /** A `verify` keyword is always among the collected names, since the
      word itself is in the pattern. */
  lemma VerifyAlwaysCollected(kws: seq<Keyword>, i: int)
    requires 0 <= i < |kws| && kws[i].arg == Some("verify") && SelectInsecure(kws).Ok?
    ensures "verify" in SelectInsecure(kws).value
  {
    assert OccursAt("verify", "verify", 0);
    assert ["cafile", "capath", "certfile", "keyfile", "cert_reqs", "ssl_version", "context", "verify"][7] == "verify";
  }

  /** `https://` is not a plain-text protocol, `http://` is. */
  lemma HttpsNotFlagged()
    ensures !IsInsecureProtocol("https://example.com")
    ensures IsInsecureProtocol("http://example.com")
  {
    var s := "https://example.com";
    var ts := ["http://", "ftp://", "telnet://"];
    forall k, i: nat | 0 <= k < 3 && i <= |s| ensures !OccursAt(s, ts[k], i) {
      if i + |ts[k]| <= |s| {
        var w := s[i..i + |ts[k]|];
        assert w[0] == s[i] && w[1] == s[i + 1] && w[4] == s[i + 4];
      }
    }
    assert OccursAt("http://example.com", ts[0], 0);
  }
}
