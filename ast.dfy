/** The parsed Python program the checkers inspect: one node type for
    expressions and statements, the children of a node, the subtree walk
    every checker iterates over, and the callee-name extraction they share. */
module Ast {
  import opened Outcomes
  import opened Strings

  newtype byte = x: int | 0 <= x < 256

  /** The bytes of a string of Latin-1 characters, as in `b"password"`. */
  function AsciiBytes(s: string): (r: seq<byte>)
    requires forall i | 0 <= i < |s| :: s[i] as int < 256
    ensures |r| == |s| && forall i | 0 <= i < |s| :: r[i] as int == s[i] as int
  {
    seq(|s|, i requires 0 <= i < |s| => s[i] as int as byte)
  }

  /** The value of an `ast.Constant`; complex and `...` constants have no
      case here. */
  datatype Literal =
    | IntLit(i: int)
    | BoolLit(b: bool)
    | StrLit(s: string)
    | BytesLit(bytes: seq<byte>)
    | FloatLit(f: real)
    | NoneLit

  datatype CmpOp = Eq | NotEq | Lt | LtE | Gt | GtE | Is | IsNot | In | NotIn

  datatype BoolOperator = And | Or

  datatype UnaryOperator = Not | Invert | UAdd | USub

  datatype BinOperator = Add | Sub | Mult | Div | Mod

  /** A keyword argument `arg=value`; `arg` is absent for `**value`. */
  datatype Keyword = Keyword(arg: Option<string>, value: Node)

  /** One further `op comparator` of a chained comparison. */
  datatype Comparison = Comparison(op: CmpOp, comparator: Node)

  /** An `except type:` clause; `htype` is absent for a bare `except:`. */
  datatype Handler = Handler(htype: Option<Node>, hbody: seq<Node>)

  /** `import name as asname`. */
  datatype Alias = Alias(name: string, asname: Option<string>)

  datatype Node =
    // expressions
    | Name(id: string)
    | Attribute(value: Node, attr: string)
    | Call(func: Node, args: seq<Node>, keywords: seq<Keyword>)
    | Constant(lit: Literal)
      /** `left firstOp right more...`: the parser always gives a comparison
          at least one operator and one comparator. */
    | Compare(left: Node, firstOp: CmpOp, right: Node, more: seq<Comparison>)
    | BoolOp(boolop: BoolOperator, values: seq<Node>)
    | UnaryOp(unaryop: UnaryOperator, operand: Node)
    | BinOp(left: Node, binop: BinOperator, right: Node)
    | Dict(keys: seq<Node>, values: seq<Node>)
    | Tuple(elts: seq<Node>)
    | Subscript(value: Node, index: Node)
    // statements
    // `params` are the names of `args.args`, the ordinary parameters only
    | FunctionDef(name: string, params: seq<string>, body: seq<Node>)
    | Assign(targets: seq<Node>, value: Node)
    | AnnAssign(target: Node, annotation: Node, annValue: Option<Node>)
    | Expr(value: Node)
    | Return(retValue: Option<Node>)
    | Try(body: seq<Node>, handlers: seq<Handler>, orelse: seq<Node>, finalbody: seq<Node>)
    | For(target: Node, iter: Node, body: seq<Node>, orelse: seq<Node>)
    | While(test: Node, body: seq<Node>, orelse: seq<Node>)
    | If(test: Node, body: seq<Node>, orelse: seq<Node>)
    | Assert(test: Node, msg: Option<Node>)
    | Import(names: seq<Alias>)
    | ImportFrom(moduleName: Option<string>, names: seq<Alias>)
    | Pass

  /** `isinstance(n, ast.Str)`: a constant whose value is a string. */
  predicate IsStr(n: Node) { n.Constant? && n.lit.StrLit? }

  /** `isinstance(v, int)`: Python's `bool` is a subclass of `int`. */
  predicate IsInt(v: Literal) { v.IntLit? || v.BoolLit? }

  /** Python truthiness of a constant value. */
  predicate Truthy(v: Literal)
  {
    match v
    case IntLit(i) => i != 0
    case BoolLit(b) => b
    case StrLit(s) => s != []
    case BytesLit(bs) => bs != []
    case FloatLit(f) => f != 0.0
    case NoneLit => false
  }

  /** Python's `v == True`: `True`, `1` and `1.0` are all equal to `True`. */
  predicate EqualsTrue(v: Literal)
  {
    v == BoolLit(true) || v == IntLit(1) || v == FloatLit(1.0)
  }

  function Opt(o: Option<Node>): seq<Node> { if o.Some? then [o.value] else [] }

  function KeywordValues(kws: seq<Keyword>): (r: seq<Node>)
    ensures |r| == |kws| && forall i | 0 <= i < |kws| :: r[i] == kws[i].value
  {
    seq(|kws|, i requires 0 <= i < |kws| => kws[i].value)
  }

  /** The names of keyword arguments, in call order; `""` stands for the
      missing name of a `**value` argument. */
  function ArgNames(kws: seq<Keyword>): (r: seq<string>)
    ensures |r| == |kws| && forall i | 0 <= i < |kws| :: r[i] == kws[i].arg.GetOr("")
  {
    seq(|kws|, i requires 0 <= i < |kws| => kws[i].arg.GetOr(""))
  }

  function Comparators(cs: seq<Comparison>): (r: seq<Node>)
    ensures |r| == |cs| && forall i | 0 <= i < |cs| :: r[i] == cs[i].comparator
  {
    seq(|cs|, i requires 0 <= i < |cs| => cs[i].comparator)
  }

  function HandlerNodes(hs: seq<Handler>, ghost parent: Node): (r: seq<Node>)
    requires forall h | h in hs :: h < parent
    ensures forall c | c in r :: c < parent
  {
    if hs == [] then []
    else
      assert hs[0] in hs;
      assert forall h | h in hs[1..] :: h in hs;
      Opt(hs[0].htype) + hs[0].hbody + HandlerNodes(hs[1..], parent)
  }

  /** `ast.iter_child_nodes`: the direct sub-nodes of a node, in field order.
      Keyword, handler, alias and operator objects are not nodes here; the
      nodes they hold are children of the node holding them. */
  function Children(n: Node): (r: seq<Node>)
    ensures forall c | c in r :: c < n
  {
    match n
    case Name(_) => []
    case Attribute(v, _) => [v]
    case Call(f, args, kws) => [f] + args + KeywordValues(kws)
    case Constant(_) => []
    case Compare(l, _, r, more) => [l, r] + Comparators(more)
    case BoolOp(_, vs) => vs
    case UnaryOp(_, e) => [e]
    case BinOp(l, _, r) => [l, r]
    case Dict(ks, vs) => ks + vs
    case Tuple(es) => es
    case Subscript(v, i) => [v, i]
    case FunctionDef(_, _, body) => body
    case Assign(ts, v) => ts + [v]
    case AnnAssign(t, a, v) => [t, a] + Opt(v)
    case Expr(v) => [v]
    case Return(v) => Opt(v)
    case Try(body, hs, orelse, fin) => body + HandlerNodes(hs, n) + orelse + fin
    case For(t, it, body, orelse) => [t, it] + body + orelse
    case While(t, body, orelse) => [t] + body + orelse
    case If(t, body, orelse) => [t] + body + orelse
    case Assert(t, m) => [t] + Opt(m)
    case Import(_) => []
    case ImportFrom(_, _) => []
    case Pass => []
  }

  /** The nodes of the subtree rooted at `n`, `n` included, in pre-order
      (a node before its children, children in field order): the
      reference enumeration `Walk` is proved against. */
  function Subtree(n: Node): seq<Node>
    decreases n
  {
    [n] + SubtreeAll(Children(n), n)
  }

  function SubtreeAll(ns: seq<Node>, ghost parent: Node): seq<Node>
    requires forall c | c in ns :: c < parent
    decreases parent, |ns|
  {
    if ns == [] then []
    else
      assert ns[0] in ns;
      assert forall c | c in ns[1..] :: c in ns;
      Subtree(ns[0]) + SubtreeAll(ns[1..], parent)
  }

  /** The number of nodes of a subtree, counted independently of any
      enumeration. */
  function Size(n: Node): nat
    decreases n
  {
    1 + SizeAll(Children(n), n)
  }

  function SizeAll(ns: seq<Node>, ghost parent: Node): nat
    requires forall c | c in ns :: c < parent
    decreases parent, |ns|
  {
    if ns == [] then 0
    else
      assert ns[0] in ns;
      assert forall c | c in ns[1..] :: c in ns;
      Size(ns[0]) + SizeAll(ns[1..], parent)
  }

  lemma {:induction false} SubtreeAllMembers(ns: seq<Node>, parent: Node, x: Node)
    requires forall c | c in ns :: c < parent
    ensures x in SubtreeAll(ns, parent) <==> exists c :: c in ns && x in Subtree(c)
    decreases |ns|
  {
    if ns != [] {
      assert forall c | c in ns[1..] :: c in ns;
      SubtreeAllMembers(ns[1..], parent, x);
      assert SubtreeAll(ns, parent) == Subtree(ns[0]) + SubtreeAll(ns[1..], parent);
      assert forall c :: c in ns <==> c == ns[0] || c in ns[1..];
    }
  }

  /** The subtree holds exactly the root and the subtrees of its children. */
  lemma SubtreeMembers(n: Node, x: Node)
    ensures x in Subtree(n) <==> x == n || exists c :: c in Children(n) && x in Subtree(c)
  {
    SubtreeAllMembers(Children(n), n, x);
  }

  lemma {:induction false} SubtreeAllLength(ns: seq<Node>, parent: Node)
    requires forall c | c in ns :: c < parent
    ensures |SubtreeAll(ns, parent)| == SizeAll(ns, parent)
    decreases parent, |ns|
  {
    if ns != [] {
      assert ns[0] in ns;
      assert forall c | c in ns[1..] :: c in ns;
      SubtreeLength(ns[0]);
      SubtreeAllLength(ns[1..], parent);
    }
  }

  lemma {:induction false} SubtreeLength(n: Node)
    ensures |Subtree(n)| == Size(n)
    decreases n
  {
    SubtreeAllLength(Children(n), n);
  }

  /** The subtrees of the nodes of a queue, one after the other. */
  function Subtrees(q: seq<Node>): seq<Node>
  {
    if q == [] then [] else Subtree(q[0]) + Subtrees(q[1..])
  }

  lemma {:induction false} SubtreesAppend(a: seq<Node>, b: seq<Node>)
    ensures Subtrees(a + b) == Subtrees(a) + Subtrees(b)
  {
    if a != [] {
      assert (a + b)[0] == a[0] && (a + b)[1..] == a[1..] + b;
      SubtreesAppend(a[1..], b);
    } else {
      assert a + b == b;
    }
  }

  lemma {:induction false} SubtreesOfChildren(ns: seq<Node>, parent: Node)
    requires forall c | c in ns :: c < parent
    ensures Subtrees(ns) == SubtreeAll(ns, parent)
    decreases |ns|
  {
    if ns != [] {
      assert forall c | c in ns[1..] :: c in ns;
      SubtreesOfChildren(ns[1..], parent);
    }
  }

  /** `ast.walk` from a queue: take the node at the front, put its children
      at the back, yield the node, until the queue is empty. Each step
      removes one node from the queue's subtrees. */
  function WalkQueue(q: seq<Node>): seq<Node>
    decreases |Subtrees(q)|
  {
    if q == [] then []
    else
      QueueStep(q);
      [q[0]] + WalkQueue(q[1..] + Children(q[0]))
  }

  /** One step of the queue: the front node's subtree is the node and its
      children's subtrees, and those move to the back. */
  lemma QueueStep(q: seq<Node>)
    requires q != []
    ensures Subtrees(q) == [q[0]] + SubtreeAll(Children(q[0]), q[0]) + Subtrees(q[1..])
    ensures Subtrees(q[1..] + Children(q[0])) == Subtrees(q[1..]) + SubtreeAll(Children(q[0]), q[0])
  {
    SubtreesAppend(q[1..], Children(q[0]));
    SubtreesOfChildren(Children(q[0]), q[0]);
  }

  /** The queue walk yields the nodes of the queue's subtrees, each as
      often as they hold it. */
  lemma {:induction false} WalkQueuePermutes(q: seq<Node>)
    ensures multiset(WalkQueue(q)) == multiset(Subtrees(q))
    decreases |Subtrees(q)|
  {
    if q != [] {
      QueueStep(q);
      WalkQueuePermutes(q[1..] + Children(q[0]));
    }
  }

  /** `ast.walk(n)`: breadth-first from `n`, which comes first. */
  function Walk(n: Node): (r: seq<Node>)
    ensures |r| > 0 && r[0] == n
  {
    WalkQueue([n])
  }

  /** The walk yields the nodes of the subtree: a permutation of their
      pre-order. */
  lemma WalkIsPermutation(n: Node)
    ensures multiset(Walk(n)) == multiset(Subtree(n))
  {
    WalkQueuePermutes([n]);
    assert Subtrees([n]) == Subtree(n) + [];
  }

  /** The walk holds exactly the root and the walks of its children. */
  lemma WalkMembers(n: Node, x: Node)
    ensures x in Walk(n) <==> x == n || exists c :: c in Children(n) && x in Walk(c)
  {
    WalkIsPermutation(n);
    assert x in Walk(n) <==> x in multiset(Subtree(n));
    forall c | c in Children(n) ensures x in Walk(c) <==> x in Subtree(c) {
      WalkIsPermutation(c);
      assert x in Walk(c) <==> x in multiset(Subtree(c));
    }
    SubtreeMembers(n, x);
  }

  /** The walk never leaves the subtree: every node it yields is the root or
      strictly inside it. */
  lemma {:induction false} WalkStaysInside(n: Node, x: Node)
    requires x in Walk(n)
    ensures x == n || x < n
    decreases n
  {
    WalkMembers(n, x);
    if x != n {
      var c :| c in Children(n) && x in Walk(c);
      WalkStaysInside(c, x);
    }
  }

  /** The walk is closed under descent: the walk of any node it yields is
      part of it. So a node nested in a node nested in `n` is walked from
      `n` too. */
  lemma {:induction false} WalkTransitive(n: Node, x: Node, y: Node)
    requires x in Walk(n) && y in Walk(x)
    ensures y in Walk(n)
    decreases n
  {
    WalkMembers(n, x);
    if x != n {
      var c :| c in Children(n) && x in Walk(c);
      WalkTransitive(c, x, y);
      WalkMembers(n, y);
    }
  }

  /** Every node of the subtree is yielded exactly once: the walk is as long
      as the subtree has nodes. */
  lemma WalkLength(n: Node)
    ensures |Walk(n)| == Size(n)
  {
    SubtreeLength(n);
    WalkIsPermutation(n);
    assert |multiset(Walk(n))| == |multiset(Subtree(n))|;
  }

  /** The name a checker gives a call:
      `call.func.attr if isinstance(call.func, ast.Attribute) else call.func.id`.
      Any callee other than an attribute or a name has no `id`, and the
      checker raises AttributeError. */
  function CalleeName(func: Node): (r: Result<string>)
    ensures func.Attribute? ==> r == Ok(func.attr)
    ensures func.Name? ==> r == Ok(func.id)
    ensures !func.Attribute? && !func.Name? ==> r == Fail(AttributeError)
  {
    match func
    case Attribute(_, attr) => Ok(attr)
    case Name(id) => Ok(id)
    case _ => Fail(AttributeError)
  }

  /** Every call among `walk` has a plain-name or attribute callee, so
      reading its name does not raise. */
  predicate CalleesNamed(walk: seq<Node>)
  {
    forall i | 0 <= i < |walk| :: walk[i].Call? ==> CalleeName(walk[i].func).Ok?
  }

  /** A Python identifier (ASCII form): a letter or `_`, then letters,
      digits and `_`. The parser gives every name and attribute this form. */
  predicate IsIdentifier(s: string)
  {
    |s| > 0 && (IsLetter(s[0]) || s[0] == '_') && forall i | 0 <= i < |s| :: IsWordChar(s[i])
  }

  /** An identifier never contains a dot, so it never equals a dotted name. */
  lemma IdentifierHasNoDot(s: string, t: string)
    requires IsIdentifier(s) && '.' in t
    ensures s != t && !Contains(s, ".")
  {
    if Contains(s, ".") {
      ContainsChars(s, ".", 0);
    }
  }

  /** Every name and attribute of the subtree has identifier form, as the
      parser gives them. */
  predicate IdentifierNames(n: Node)
  {
    forall x | x in Walk(n) :: (x.Name? ==> IsIdentifier(x.id)) && (x.Attribute? ==> IsIdentifier(x.attr))
  }

  /** Then the callee name of every call of the subtree is an identifier:
      the callee is in the subtree too. */
  lemma CalleeIsIdentifier(node: Node, n: Node)
    requires IdentifierNames(node)
    requires n in Walk(node) && n.Call? && CalleeName(n.func).Ok?
    ensures IsIdentifier(CalleeName(n.func).value)
  {
    assert n.func in Children(n);
    assert Walk(n.func)[0] == n.func;
    WalkMembers(n, n.func);
    WalkTransitive(node, n, n.func);
  }
}
