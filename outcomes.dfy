/** Values shared by every checker: optional values, the Python exceptions a
    checker can raise, and the report a printing checker leaves behind. */
module Outcomes {

  datatype Option<+T> = None | Some(value: T) {
    function GetOr(default: T): T { if Some? then value else default }
  }

  /** The Python exceptions the checkers raise on inputs they do not expect
      (a callee that is neither a name nor an attribute, an unbound local,
      a `.lower()` on an integer, ...). */
  datatype Crash = AttributeError | IndexError | TypeError | UnboundLocalError

  /** A value or the exception that prevented computing it. */
  datatype Result<+T> = Ok(value: T) | Fail(error: Crash)

  /** What a checker that prints its warnings leaves behind: the warnings
      printed, in order, and the exception that stopped it, if one did.
      Warnings printed before an exception stay printed. */
  datatype Report<+W> = Report(out: seq<W>, error: Option<Crash>) {
    predicate Finished() { error.None? }
  }

  function Nothing<W>(): Report<W> { Report([], None) }

  function Emit<W>(w: W): Report<W> { Report([w], None) }

  function Abort<W>(e: Crash): Report<W> { Report([], Some(e)) }

  function EmitIf<W>(c: bool, w: W): Report<W> { if c then Emit(w) else Nothing() }

  /** Run `a`, then `b` unless `a` raised. */
  function Then<W>(a: Report<W>, b: Report<W>): (r: Report<W>)
    ensures r.Finished() <==> a.Finished() && b.Finished()
    ensures a.Finished() ==> r.out == a.out + b.out
    ensures !a.Finished() ==> r == a
  {
    if a.error.Some? then a else Report(a.out + b.out, b.error)
  }

  /** A Python `for x in xs:` loop whose body prints: the bodies run in
      order and the first exception ends the loop. It finishes exactly when
      no body raises, and then it prints exactly what the bodies print. */
  function ForEach<T, W>(xs: seq<T>, f: T -> Report<W>): (r: Report<W>)
    ensures r.Finished() <==> forall i | 0 <= i < |xs| :: f(xs[i]).Finished()
    ensures forall w | w in r.out :: exists i | 0 <= i < |xs| :: w in f(xs[i]).out
    ensures (forall i | 0 <= i < |xs| :: f(xs[i]).out == []) ==> r.out == []
    ensures r.Finished() ==> forall i, w | 0 <= i < |xs| && w in f(xs[i]).out :: w in r.out
    decreases |xs|
  {
    if xs == [] then Nothing()
    else
      var rest := ForEach(xs[1..], f);
      assert forall i | 1 <= i < |xs| :: xs[i] == xs[1..][i - 1];
      Then(f(xs[0]), rest)
  }

  /** The exception that ends a loop is one that a body raised. */
  lemma {:induction false} ForEachError<T, W>(xs: seq<T>, f: T -> Report<W>)
    requires !ForEach(xs, f).Finished()
    ensures exists i | 0 <= i < |xs| :: f(xs[i]).error == ForEach(xs, f).error
    decreases |xs|
  {
    assert xs != [];
    if f(xs[0]).Finished() {
      assert forall i | 0 <= i < |xs[1..]| :: xs[1..][i] == xs[i + 1];
      ForEachError(xs[1..], f);
      var i :| 0 <= i < |xs[1..]| && f(xs[1..][i]).error == ForEach(xs[1..], f).error;
      assert f(xs[i + 1]).error == ForEach(xs, f).error;
    } else {
      assert f(xs[0]).error == ForEach(xs, f).error;
    }
  }

  /** The positions of `xs` whose element satisfies `p`. */
  function Matches<T>(xs: seq<T>, p: T -> bool): set<int>
  {
    set i | 0 <= i < |xs| && p(xs[i])
  }

  lemma MatchesOfPrefix<T>(xs: seq<T>, p: T -> bool)
    requires xs != []
    ensures Matches(xs, p) == Matches(xs[..|xs| - 1], p) + (if p(xs[|xs| - 1]) then {|xs| - 1} else {})
    ensures |xs| - 1 !in Matches(xs[..|xs| - 1], p)
  {
    var init := xs[..|xs| - 1];
    forall i ensures i in Matches(xs, p) <==> i in Matches(init, p) || (i == |xs| - 1 && p(xs[i])) {
      if 0 <= i < |xs| - 1 { assert init[i] == xs[i]; }
    }
  }

  /** A loop that prints `w` once for each element satisfying `p`: as many
      copies of `w` as there are matching positions. */
  function OnePerMatch<T, W>(xs: seq<T>, p: T -> bool, w: W): (r: seq<W>)
    ensures forall v | v in r :: v == w
    ensures |r| == |Matches(xs, p)|
    ensures multiset(r)[w] == |Matches(xs, p)|
    decreases |xs|
  {
    if xs == [] then
      assert Matches(xs, p) == {};
      []
    else
      var init := xs[..|xs| - 1];
      MatchesOfPrefix(xs, p);
      if p(xs[|xs| - 1]) then OnePerMatch(init, p, w) + [w]
      else OnePerMatch(init, p, w)
  }

  /** Printing `w` for each matching element of `a + b` prints the copies
      for `a`, then those for `b`. */
  lemma {:induction false} OnePerMatchAppend<T, W>(a: seq<T>, b: seq<T>, p: T -> bool, w: W)
    ensures OnePerMatch(a + b, p, w) == OnePerMatch(a, p, w) + OnePerMatch(b, p, w)
    decreases |b|
  {
    if b == [] {
      assert a + b == a;
    } else {
      var init := b[..|b| - 1];
      assert (a + b)[..|a + b| - 1] == a + init;
      assert (a + b)[|a + b| - 1] == b[|b| - 1];
      OnePerMatchAppend(a, init, p, w);
    }
  }

  /** A loop whose body prints `w` exactly for the elements satisfying `p`
      prints one copy per matching element, and always finishes. */
  lemma {:induction false} ForEachOnePerMatch<T, W>(xs: seq<T>, f: T -> Report<W>, p: T -> bool, w: W)
    requires forall i | 0 <= i < |xs| :: f(xs[i]) == EmitIf(p(xs[i]), w)
    ensures ForEach(xs, f) == Report(OnePerMatch(xs, p, w), None)
    decreases |xs|
  {
    if xs != [] {
      assert forall i | 0 <= i < |xs[1..]| :: xs[1..][i] == xs[i + 1];
      ForEachOnePerMatch(xs[1..], f, p, w);
      assert xs == [xs[0]] + xs[1..];
      OnePerMatchAppend([xs[0]], xs[1..], p, w);
      assert [xs[0]][..0] == [];
      assert OnePerMatch([xs[0]], p, w) == (if p(xs[0]) then [w] else []);
    }
  }

  /** The elements of `xs` that satisfy `p`, in their order, repetitions
      kept: what a list comprehension with a condition builds. */
  function Filter<T>(xs: seq<T>, p: T -> bool): (r: seq<T>)
    ensures |r| <= |xs|
    ensures forall i | 0 <= i < |r| :: r[i] in xs && p(r[i])
    ensures forall i | 0 <= i < |xs| && p(xs[i]) :: xs[i] in r
    decreases |xs|
  {
    if xs == [] then []
    else
      assert forall i | 1 <= i < |xs| :: xs[1..][i - 1] == xs[i];
      (if p(xs[0]) then [xs[0]] else []) + Filter(xs[1..], p)
  }

  lemma {:induction false} FilterAppend<T>(a: seq<T>, b: seq<T>, p: T -> bool)
    ensures Filter(a + b, p) == Filter(a, p) + Filter(b, p)
    decreases |a|
  {
    if a == [] {
      assert a + b == b;
    } else {
      assert (a + b)[0] == a[0];
      assert (a + b)[1..] == a[1..] + b;
      FilterAppend(a[1..], b, p);
    }
  }
}
