// What a linear, invertible shift register can tell about its recent input, whatever its width.
module RegisterAlgebra {
  import opened Folds

  // Exclusive or is an abelian group in which every element is its own inverse.
  ghost predicate Group<T(!new)>(plus: (T, T) -> T, zero: T) {
    && (forall x, y :: plus(x, y) == plus(y, x))
    && (forall x, y, z :: plus(plus(x, y), z) == plus(x, plus(y, z)))
    && (forall x :: plus(x, x) == zero)
    && (forall x :: plus(x, zero) == x)
  }

  // What is needed of exclusive or: terms that occur twice cancel.
  ghost predicate SelfInverse<T(!new)>(plus: (T, T) -> T, zero: T) {
    && (forall x :: plus(x, x) == zero)
    && (forall x, w :: plus(plus(x, w), w) == x)
    && (forall c, d, a, b :: plus(plus(plus(c, a), plus(d, b)), plus(a, b)) == plus(c, d))
  }

  lemma Regroup<T(!new)>(plus: (T, T) -> T, zero: T, c: T, d: T, a: T, b: T)
    requires Group(plus, zero)
    ensures plus(plus(c, a), a) == c
    ensures plus(c, d) == plus(plus(plus(c, a), plus(d, b)), plus(a, b))
  {
    calc {
      plus(plus(plus(c, a), plus(d, b)), plus(a, b));
      plus(plus(c, a), plus(plus(d, b), plus(b, a)));
      { assert plus(plus(d, b), plus(b, a)) == plus(d, plus(b, plus(b, a)));
        assert plus(b, plus(b, a)) == plus(plus(b, b), a) == plus(a, zero) == a; }
      plus(plus(c, a), plus(d, a));
      plus(c, plus(a, plus(a, d)));
      { assert plus(a, plus(a, d)) == plus(plus(a, a), d) == plus(d, zero) == d; }
      plus(c, d);
    }
  }

  lemma GroupCancels<T(!new)>(plus: (T, T) -> T, zero: T)
    requires Group(plus, zero)
    ensures SelfInverse(plus, zero)
  {
    forall c, d, a, b
      ensures plus(plus(plus(c, a), plus(d, b)), plus(a, b)) == plus(c, d)
    {
      Regroup(plus, zero, c, d, a, b);
    }
    forall x, w
      ensures plus(plus(x, w), w) == x
    {
      Regroup(plus, zero, x, x, w, w);
    }
  }

  ghost predicate Linear<T(!new)>(step: T -> T, plus: (T, T) -> T) {
    forall x, y :: step(plus(x, y)) == plus(step(x), step(y))
  }

  ghost predicate Injective<T(!new)>(step: T -> T) {
    forall x, y :: step(x) == step(y) ==> x == y
  }

  // The difference before a symbol each that left the difference d.
  ghost function Before<T, B>(plus: (T, T) -> T, word: B -> T, up: T -> T, d: T, a: B, b: B): T {
    plus(up(d), plus(word(a), word(b)))
  }

  // `small(n, d)`: n symbols can still cancel the difference d. Such a d is the step of up(d), and
  // one more symbol on either side keeps it small and does not get mixed up with it. There is room
  // for `cap` symbols.
  ghost predicate Room<T(!new), B(!new)>(step: T -> T, plus: (T, T) -> T, zero: T, word: B -> T, up: T -> T,
                                   small: (nat, T) -> bool, cap: nat) {
    && small(0, zero)
    && (forall n: nat, d | n < cap && small(n, d) :: step(up(d)) == d)
    && (forall n: nat, d, a, b {:trigger small(n, d), Before(plus, word, up, d, a, b)} | n < cap && small(n, d) ::
          && small(n + 1, Before(plus, word, up, d, a, b))
          && (Before(plus, word, up, d, a, b) == zero ==> d == zero && a == b))
  }

  function ShiftIn<T, B>(step: T -> T, plus: (T, T) -> T, word: B -> T, c: T, b: B): T {
    step(plus(c, word(b)))
  }

  // Registers whose next values differ by a small amount: what they differed by.
  lemma BackOneSymbol<T(!new), B(!new)>(step: T -> T, plus: (T, T) -> T, zero: T, word: B -> T, up: T -> T,
                                  small: (nat, T) -> bool, cap: nat, n: nat, c: T, d: T, a: B, b: B, diff: T)
    requires SelfInverse(plus, zero) && Linear(step, plus) && Injective(step) && Room(step, plus, zero, word, up, small, cap)
    requires n < cap && small(n, diff)
    requires diff == plus(ShiftIn(step, plus, word, c, a), ShiftIn(step, plus, word, d, b))
    ensures small(n + 1, plus(c, d))
    ensures plus(c, d) == zero ==> diff == zero && a == b
  {
    var x, y := plus(c, word(a)), plus(d, word(b));
    assert step(plus(x, y)) == diff == step(up(diff));
    assert plus(c, d) == plus(plus(x, y), plus(word(a), word(b))) == Before(plus, word, up, diff, a, b);
  }

  // Up to `cap` symbols are determined by the register before and after them.
  lemma {:induction false} TraceBack<T(!new), B(!new)>(step: T -> T, plus: (T, T) -> T, zero: T, word: B -> T, up: T -> T,
                                                 small: (nat, T) -> bool, cap: nat, shift: (T, B) -> T,
                                                 c: T, d: T, u: seq<B>, v: seq<B>)
    requires SelfInverse(plus, zero) && Linear(step, plus) && Injective(step) && Room(step, plus, zero, word, up, small, cap)
    requires forall x, b :: shift(x, b) == ShiftIn(step, plus, word, x, b)
    requires |u| == |v| <= cap && Fold(shift, c, u) == Fold(shift, d, v)
    ensures small(|u|, plus(c, d))
    ensures plus(c, d) == zero ==> u == v
    decreases u
  {
    if u != [] {
      var a, b := u[0], v[0];
      var c', d' := shift(c, a), shift(d, b);
      TraceBack(step, plus, zero, word, up, small, cap, shift, c', d', u[1..], v[1..]);
      BackOneSymbol(step, plus, zero, word, up, small, cap, |u| - 1, c, d, a, b, plus(c', d'));
      HeadsAndTails(u, v);
    }
  }

  lemma HeadsAndTails<B>(u: seq<B>, v: seq<B>)
    requires |u| == |v| > 0
    ensures u[0] == v[0] && u[1..] == v[1..] ==> u == v
  {
    assert u == [u[0]] + u[1..] && v == [v[0]] + v[1..];
  }

  lemma SameBefore<T(!new), B>(step: T -> T, plus: (T, T) -> T, zero: T, word: B -> T, x: T, y: T, b: B)
    requires SelfInverse(plus, zero) && Injective(step)
    requires ShiftIn(step, plus, word, x, b) == ShiftIn(step, plus, word, y, b)
    ensures x == y
  {
    var w := word(b);
    assert plus(x, w) == plus(y, w);
    assert plus(plus(x, w), w) == x && plus(plus(y, w), w) == y;
  }

  // The register keeps a difference once it has one.
  lemma {:induction false} Remembers<T(!new), B(!new)>(step: T -> T, plus: (T, T) -> T, zero: T, word: B -> T, shift: (T, B) -> T,
                                                 c: T, d: T, input: seq<B>)
    requires SelfInverse(plus, zero) && Injective(step)
    requires forall x, b :: shift(x, b) == ShiftIn(step, plus, word, x, b)
    requires Fold(shift, c, input) == Fold(shift, d, input)
    ensures c == d
    decreases input
  {
    if input != [] {
      Remembers(step, plus, zero, word, shift, shift(c, input[0]), shift(d, input[0]), input[1..]);
      SameBefore(step, plus, zero, word, c, d, input[0]);
    }
  }

  // Messages that differ only in a window of at most `cap` symbols leave different registers.
  lemma WindowSeen<T(!new), B(!new)>(step: T -> T, plus: (T, T) -> T, zero: T, word: B -> T, up: T -> T,
                               small: (nat, T) -> bool, cap: nat, shift: (T, B) -> T, finish: T -> T,
                               c: T, p: seq<B>, u: seq<B>, v: seq<B>, q: seq<B>)
    requires SelfInverse(plus, zero) && Linear(step, plus) && Injective(step) && Room(step, plus, zero, word, up, small, cap)
    requires forall x, b :: shift(x, b) == ShiftIn(step, plus, word, x, b)
    requires Injective(finish)
    requires |u| == |v| <= cap
    ensures finish(Fold(shift, c, p + u + q)) == finish(Fold(shift, c, p + v + q)) <==> u == v
  {
    var r := Fold(shift, c, p);
    FoldThree(shift, c, p, u, q);
    FoldThree(shift, c, p, v, q);
    if finish(Fold(shift, c, p + u + q)) == finish(Fold(shift, c, p + v + q)) {
      Remembers(step, plus, zero, word, shift, Fold(shift, r, u), Fold(shift, r, v), q);
      TraceBack(step, plus, zero, word, up, small, cap, shift, r, r, u, v);
      assert plus(r, r) == zero;
    }
  }
}
