/** Termination of a stack-driven traversal: popping an item and pushing its successors ends
    when every successor measures below the item that pushed it. `Potential` counts the pops an
    item still causes, and `Total` those of a whole stack; every pop lowers `Total`. */
module Worklist {
  ghost predicate Decreasing<T(!new)>(next: T -> seq<T>, measure: T -> nat) {
    forall x: T, i :: 0 <= i < |next(x)| ==> measure(next(x)[i]) < measure(x)
  }

  function Sum(xs: seq<nat>): nat {
    if |xs| == 0 then 0 else Sum(xs[..|xs| - 1]) + xs[|xs| - 1]
  }

  lemma {:induction false} SumAppend(a: seq<nat>, b: seq<nat>)
    ensures Sum(a + b) == Sum(a) + Sum(b)
    decreases |b|
  {
    if |b| > 0 {
      assert (a + b)[..|a + b| - 1] == a + b[..|b| - 1];
      SumAppend(a, b[..|b| - 1]);
    } else {
      assert a + b == a;
    }
  }

  ghost function Potential<T(!new)>(next: T -> seq<T>, measure: T -> nat, x: T): nat
    requires Decreasing(next, measure)
    decreases measure(x)
  {
    var ch := next(x);
    1 + Sum(seq(|ch|, i requires 0 <= i < |ch| => Potential(next, measure, ch[i])))
  }

  ghost function Total<T(!new)>(next: T -> seq<T>, measure: T -> nat, s: seq<T>): nat
    requires Decreasing(next, measure)
  {
    Sum(seq(|s|, i requires 0 <= i < |s| => Potential(next, measure, s[i])))
  }

  lemma PotentialUnfold<T(!new)>(next: T -> seq<T>, measure: T -> nat, x: T)
    requires Decreasing(next, measure)
    ensures Potential(next, measure, x) == 1 + Total(next, measure, next(x))
  {
    var ch := next(x);
    assert seq(|ch|, i requires 0 <= i < |ch| => Potential(next, measure, ch[i]))
        == seq(|ch|, i requires 0 <= i < |ch| => Potential(next, measure, ch[i]));
  }

  lemma TotalAppend<T(!new)>(next: T -> seq<T>, measure: T -> nat, a: seq<T>, b: seq<T>)
    requires Decreasing(next, measure)
    ensures Total(next, measure, a + b) == Total(next, measure, a) + Total(next, measure, b)
  {
    var pa := seq(|a|, i requires 0 <= i < |a| => Potential(next, measure, a[i]));
    var pb := seq(|b|, i requires 0 <= i < |b| => Potential(next, measure, b[i]));
    var ab := a + b;
    assert seq(|ab|, i requires 0 <= i < |ab| => Potential(next, measure, ab[i])) == pa + pb;
    SumAppend(pa, pb);
  }

  lemma TotalSingle<T(!new)>(next: T -> seq<T>, measure: T -> nat, x: T)
    requires Decreasing(next, measure)
    ensures Total(next, measure, [x]) == Potential(next, measure, x)
  {
    var ps := seq(1, i requires 0 <= i < 1 => Potential(next, measure, [x][i]));
    assert Total(next, measure, [x]) == Sum(ps);
    assert ps[..0] == [];
  }

  lemma SplitLast<T>(s: seq<T>)
    requires |s| > 0
    ensures s == s[..|s| - 1] + [s[|s| - 1]]
  {
  }

  /** Popping the last item and pushing its successors lowers the total by one; dropping the
      popped item without successors lowers it too. */
  lemma PopDecreases<T(!new)>(next: T -> seq<T>, measure: T -> nat, s: seq<T>)
    requires Decreasing(next, measure) && |s| > 0
    ensures Total(next, measure, s[..|s| - 1] + next(s[|s| - 1])) < Total(next, measure, s)
    ensures Total(next, measure, s[..|s| - 1]) < Total(next, measure, s)
  {
    var x := s[|s| - 1];
    var rest := s[..|s| - 1];
    SplitLast(s);
    TotalAppend(next, measure, rest, [x]);
    TotalSingle(next, measure, x);
    PotentialUnfold(next, measure, x);
    TotalAppend(next, measure, rest, next(x));
  }

  /** A traversal: the popped items in popping order, and whether it ended at an item that
      stops it (that item is then the last one popped). */
  datatype Walk<T> = Walk(visited: seq<T>, stopped: bool)

  /** Pop the last item; stop there if it stops the traversal, otherwise push its successors
      and go on until the stack is empty. */
  ghost function Run<T(!new)>(next: T -> seq<T>, measure: T -> nat, stops: T -> bool, stack: seq<T>): (r: Walk<T>)
    requires Decreasing(next, measure)
    ensures |r.visited| > 0 <==> stack != []
    ensures stack != [] ==> r.visited[0] == stack[|stack| - 1]
    decreases Total(next, measure, stack)
  {
    if stack == [] then Walk([], false)
    else
      var x := stack[|stack| - 1];
      if stops(x) then Walk([x], true)
      else
        PopDecreases(next, measure, stack);
        var w := Run(next, measure, stops, stack[..|stack| - 1] + next(x));
        Walk([x] + w.visited, w.stopped)
  }

  /** Unless the traversal stops, every item on the stack is visited. */
  lemma {:induction false} RunCovers<T(!new)>(next: T -> seq<T>, measure: T -> nat, stops: T -> bool, stack: seq<T>)
    requires Decreasing(next, measure) && !Run(next, measure, stops, stack).stopped
    ensures forall x :: x in stack ==> x in Run(next, measure, stops, stack).visited
    decreases Total(next, measure, stack)
  {
    if stack != [] {
      var x := stack[|stack| - 1];
      PopDecreases(next, measure, stack);
      RunCovers(next, measure, stops, stack[..|stack| - 1] + next(x));
      SplitLast(stack);
    }
  }

  /** Every successor of an item in `v` is in `v`. */
  ghost predicate Closed<T>(next: T -> seq<T>, v: seq<T>) {
    forall i, k :: 0 <= i < |v| && 0 <= k < |next(v[i])| ==> next(v[i])[k] in v
  }

  lemma ClosedStep<T>(next: T -> seq<T>, x: T, stack: seq<T>, u: seq<T>)
    requires Closed(next, u)
    requires forall y :: y in stack ==> y in u
    requires forall k :: 0 <= k < |next(x)| ==> next(x)[k] in stack
    ensures Closed(next, [x] + u)
  {
    var v := [x] + u;
    forall i, k | 0 <= i < |v| && 0 <= k < |next(v[i])|
      ensures next(v[i])[k] in v
    {
      if i > 0 {
        assert v[i] == u[i - 1];
      }
    }
  }

  /** Unless the traversal stops, every successor of a visited item is visited too. */
  lemma {:induction false} RunClosed<T(!new)>(next: T -> seq<T>, measure: T -> nat, stops: T -> bool, stack: seq<T>)
    requires Decreasing(next, measure) && !Run(next, measure, stops, stack).stopped
    ensures Closed(next, Run(next, measure, stops, stack).visited)
    decreases Total(next, measure, stack)
  {
    if stack != [] {
      var x := stack[|stack| - 1];
      var rest := stack[..|stack| - 1] + next(x);
      PopDecreases(next, measure, stack);
      RunClosed(next, measure, stops, rest);
      RunCovers(next, measure, stops, rest);
      ClosedStep(next, x, rest, Run(next, measure, stops, rest).visited);
    }
  }

  /** Every item of `v` is in `stack` or is a successor of an earlier item of `v`. */
  ghost predicate Sound<T>(next: T -> seq<T>, stack: seq<T>, v: seq<T>) {
    forall i :: 0 <= i < |v| ==> v[i] in stack || exists j :: 0 <= j < i && v[i] in next(v[j])
  }

  /** Every visited item was on the stack or is a successor of an item visited before it. */
  lemma {:induction false} RunSound<T(!new)>(next: T -> seq<T>, measure: T -> nat, stops: T -> bool, stack: seq<T>)
    requires Decreasing(next, measure)
    ensures Sound(next, stack, Run(next, measure, stops, stack).visited)
    decreases Total(next, measure, stack)
  {
    if stack != [] {
      var x := stack[|stack| - 1];
      if !stops(x) {
        var rest := stack[..|stack| - 1] + next(x);
        PopDecreases(next, measure, stack);
        var u := Run(next, measure, stops, rest).visited;
        var v := Run(next, measure, stops, stack).visited;
        RunSound(next, measure, stops, rest);
        forall i | 0 < i < |v|
          ensures v[i] in stack || exists j :: 0 <= j < i && v[i] in next(v[j])
        {
          assert v[i] == u[i - 1];
          assert u[i - 1] in rest || exists j :: 0 <= j < i - 1 && u[i - 1] in next(u[j]);
          if u[i - 1] in rest {
            if u[i - 1] in next(x) {
              assert v[0] == x;
            }
          } else {
            var j :| 0 <= j < i - 1 && u[i - 1] in next(u[j]);
            assert v[j + 1] == u[j];
          }
        }
      }
    }
  }

  /** A traversal that stops ends at an item that stops it. */
  lemma {:induction false} RunStopped<T(!new)>(next: T -> seq<T>, measure: T -> nat, stops: T -> bool, stack: seq<T>)
    requires Decreasing(next, measure) && Run(next, measure, stops, stack).stopped
    ensures var v := Run(next, measure, stops, stack).visited;
      |v| > 0 && stops(v[|v| - 1])
    decreases Total(next, measure, stack)
  {
    var x := stack[|stack| - 1];
    if !stops(x) {
      var rest := stack[..|stack| - 1] + next(x);
      PopDecreases(next, measure, stack);
      RunStopped(next, measure, stops, rest);
    }
  }

  /** No item popped before the last one stops the walk, and none at all when it ran to the end. */
  predicate StopsOnlyAtEnd<T>(stops: T -> bool, w: Walk<T>) {
    forall i :: 0 <= i < |w.visited| && (i + 1 < |w.visited| || !w.stopped) ==> !stops(w.visited[i])
  }

  lemma {:induction false} RunStopsOnlyAtEnd<T(!new)>(next: T -> seq<T>, measure: T -> nat, stops: T -> bool, stack: seq<T>)
    requires Decreasing(next, measure)
    ensures StopsOnlyAtEnd(stops, Run(next, measure, stops, stack))
    decreases Total(next, measure, stack)
  {
    if stack != [] {
      var x := stack[|stack| - 1];
      if !stops(x) {
        var rest := stack[..|stack| - 1] + next(x);
        PopDecreases(next, measure, stack);
        RunStopsOnlyAtEnd(next, measure, stops, rest);
        var r := Run(next, measure, stops, stack);
        var w := Run(next, measure, stops, rest);
        assert r == Walk([x] + w.visited, w.stopped);
        forall i | 0 < i < |r.visited| && (i + 1 < |r.visited| || !r.stopped)
          ensures !stops(r.visited[i])
        {
          assert r.visited[i] == w.visited[i - 1];
        }
      }
    }
  }

  /** A traversal never stops when a property of the stack that successors inherit rules
      stopping out. */
  lemma {:induction false} RunNeverStops<T(!new)>(next: T -> seq<T>, measure: T -> nat, stops: T -> bool, inv: T -> bool, stack: seq<T>)
    requires Decreasing(next, measure)
    requires forall x :: x in stack ==> inv(x)
    requires forall x, k :: inv(x) && 0 <= k < |next(x)| ==> inv(next(x)[k])
    requires forall x :: inv(x) ==> !stops(x)
    ensures !Run(next, measure, stops, stack).stopped
    decreases Total(next, measure, stack)
  {
    if stack != [] {
      var x := stack[|stack| - 1];
      PopDecreases(next, measure, stack);
      RunNeverStops(next, measure, stops, inv, stack[..|stack| - 1] + next(x));
    }
  }
}
