// Iteration and left folds, over any state.
module Folds {

  function Iterate<T>(f: T -> T, n: nat, x: T): T {
    if n == 0 then x else Iterate(f, n - 1, f(x))
  }

  function Fold<S, B>(step: (S, B) -> S, s: S, input: seq<B>): S
    decreases input
  {
    if input == [] then s else Fold(step, step(s, input[0]), input[1..])
  }

  function Concat<A, B>(expand: A -> seq<B>, input: seq<A>): seq<B> {
    if input == [] then [] else expand(input[0]) + Concat(expand, input[1..])
  }

  lemma {:induction false} FoldAppend<S, B>(step: (S, B) -> S, s: S, a: seq<B>, b: seq<B>)
    ensures Fold(step, s, a + b) == Fold(step, Fold(step, s, a), b)
    decreases a
  {
    if a == [] {
      assert a + b == b;
    } else {
      assert (a + b)[1..] == a[1..] + b;
      FoldAppend(step, step(s, a[0]), a[1..], b);
    }
  }

  lemma FoldSnoc<S, B>(step: (S, B) -> S, s: S, a: seq<B>, b: B)
    ensures Fold(step, s, a + [b]) == step(Fold(step, s, a), b)
  {
    FoldAppend(step, s, a, [b]);
  }

  // A coarse step that folds a fine one, fold by fold.
  lemma {:induction false} FoldConcat<S(!new), A(!new), B>(coarse: (S, A) -> S, fine: (S, B) -> S,
                                                  expand: A -> seq<B>, s: S, input: seq<A>)
    requires forall t, a :: coarse(t, a) == Fold(fine, t, expand(a))
    ensures Fold(coarse, s, input) == Fold(fine, s, Concat(expand, input))
    decreases input
  {
    if input != [] {
      FoldConcat(coarse, fine, expand, coarse(s, input[0]), input[1..]);
      FoldAppend(fine, s, expand(input[0]), Concat(expand, input[1..]));
    }
  }

  lemma {:induction false} FoldAgree<S(!new), B(!new)>(f: (S, B) -> S, g: (S, B) -> S, s: S, input: seq<B>)
    requires forall t, b :: f(t, b) == g(t, b)
    ensures Fold(f, s, input) == Fold(g, s, input)
    decreases input
  {
    if input != [] {
      FoldAgree(f, g, f(s, input[0]), input[1..]);
    }
  }

  lemma {:induction false} ConcatAppend<A, B>(expand: A -> seq<B>, a: seq<A>, b: seq<A>)
    ensures Concat(expand, a + b) == Concat(expand, a) + Concat(expand, b)
    decreases a
  {
    if a == [] {
      assert a + b == b;
    } else {
      assert (a + b)[1..] == a[1..] + b;
      ConcatAppend(expand, a[1..], b);
    }
  }

  lemma FoldThree<S, B>(step: (S, B) -> S, s: S, p: seq<B>, u: seq<B>, q: seq<B>)
    ensures Fold(step, s, p + u + q) == Fold(step, Fold(step, Fold(step, s, p), u), q)
  {
    FoldAppend(step, s, p + u, q);
    FoldAppend(step, s, p, u);
  }

  // If every item, expanded, takes the fold from one resting state to the next and emits its own
  // output, a whole list of items does.
  lemma {:induction false} FoldEmits<S, A, B, E(!new)>(step: (S, B) -> S, expand: A -> seq<B>, emit: A -> seq<E>,
                                                 rest: seq<E> -> S, out: seq<E>, items: seq<A>)
    requires forall i, o | 0 <= i < |items| :: Fold(step, rest(o), expand(items[i])) == rest(o + emit(items[i]))
    ensures Fold(step, rest(out), Concat(expand, items)) == rest(out + Concat(emit, items))
    decreases items
  {
    if items == [] {
      assert out + [] == out;
    } else {
      var after := out + emit(items[0]);
      assert Fold(step, rest(out), expand(items[0])) == rest(after);
      forall i, o | 0 <= i < |items[1..]|
        ensures Fold(step, rest(o), expand(items[1..][i])) == rest(o + emit(items[1..][i]))
      {
        assert items[1..][i] == items[i + 1];
      }
      FoldEmits(step, expand, emit, rest, after, items[1..]);
      FoldAppend(step, rest(out), expand(items[0]), Concat(expand, items[1..]));
      assert after + Concat(emit, items[1..]) == out + Concat(emit, items);
    }
  }

  // If every item, expanded, takes the fold from one state of a run to the next, all of them take
  // it from the first state to the last.
  lemma {:induction false} FoldRun<S, A, B>(step: (S, B) -> S, expand: A -> seq<B>, states: seq<S>, items: seq<A>)
    requires |states| == |items| + 1
    requires forall i | 0 <= i < |items| :: Fold(step, states[i], expand(items[i])) == states[i + 1]
    ensures Fold(step, states[0], Concat(expand, items)) == states[|items|]
    decreases items
  {
    if items != [] {
      FoldRun(step, expand, states[1..], items[1..]);
      FoldAppend(step, states[0], expand(items[0]), Concat(expand, items[1..]));
    }
  }

  lemma ConcatSnoc<A, B>(expand: A -> seq<B>, items: seq<A>, item: A)
    ensures Concat(expand, items + [item]) == Concat(expand, items) + expand(item)
  {
    ConcatAppend(expand, items, [item]);
    assert Concat(expand, [item]) == expand(item) + Concat(expand, [item][1..]);
  }
}
