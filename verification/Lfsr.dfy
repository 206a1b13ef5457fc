/** Shift registers with linear feedback over an arbitrary type of register contents: `f` advances the register by
    one position, `add` is the exclusive or.  Kept apart from machine words, of which these facts are independent. */
module Lfsr {

  function Iter<T>(f: T -> T, n: nat, x: T): T {
    if n == 0 then x else Iter(f, n - 1, f(x))
  }

  /** Each input bit is added at the end from which the register is shifted out. */
  function FeedTop<T>(f: T -> T, add: (T, T) -> T, put: bool -> T, r: T, bits: seq<bool>): T
    decreases |bits|
  {
    if bits == [] then r else FeedTop(f, add, put, f(add(r, put(bits[0]))), bits[1..])
  }

  /** Long division: each further bit of the dividend comes in at the low end. */
  function FeedLow<T>(f: T -> T, add: (T, T) -> T, unit: bool -> T, r: T, bits: seq<bool>): T
    decreases |bits|
  {
    if bits == [] then r else FeedLow(f, add, unit, add(f(r), unit(bits[0])), bits[1..])
  }

  ghost predicate Algebra<T(!new)>(add: (T, T) -> T, zero: T) {
    && (forall a, b, c :: add(add(a, b), c) == add(a, add(b, c)))
    && (forall a, b :: add(a, b) == add(b, a))
    && (forall a :: add(a, zero) == a)
    && (forall a :: add(a, a) == zero)
  }

  ghost predicate Linear<T(!new)>(f: T -> T, add: (T, T) -> T) {
    forall a, b :: f(add(a, b)) == add(f(a), f(b))
  }

  ghost predicate Injective<T(!new)>(f: T -> T) {
    forall a, b :: f(a) == f(b) ==> a == b
  }

  /** A register of w positions: what enters at the top end could have entered at the low end w steps earlier. */
  ghost predicate Machine<T(!new)>(f: T -> T, add: (T, T) -> T, put: bool -> T, unit: bool -> T, zero: T, w: nat) {
    && Algebra(add, zero) && Linear(f, add)
    && (forall b :: f(put(b)) == Iter(f, w, unit(b)))
    && unit(false) == zero
  }

  lemma Cancel<T(!new)>(add: (T, T) -> T, zero: T, r: T, a: T, b: T)
    requires Algebra(add, zero) && add(r, a) == add(r, b)
    ensures a == b
  {
    assert add(r, add(r, a)) == add(add(r, r), a);
    assert add(r, add(r, b)) == add(add(r, r), b);
  }

  lemma LinearZero<T(!new)>(f: T -> T, add: (T, T) -> T, zero: T)
    requires Algebra(add, zero) && Linear(f, add)
    ensures f(zero) == zero
  {
    assert f(add(zero, zero)) == add(f(zero), f(zero));
  }

  lemma {:induction false} IterZero<T(!new)>(f: T -> T, n: nat, zero: T)
    requires f(zero) == zero
    ensures Iter(f, n, zero) == zero
  {
    if n > 0 {
      IterZero(f, n - 1, zero);
    }
  }

  lemma {:induction false} IterLinear<T(!new)>(f: T -> T, add: (T, T) -> T, n: nat, a: T, b: T)
    requires Linear(f, add)
    ensures Iter(f, n, add(a, b)) == add(Iter(f, n, a), Iter(f, n, b))
  {
    if n > 0 {
      IterLinear(f, add, n - 1, f(a), f(b));
    }
  }

  lemma IterParts<T(!new)>(f: T -> T, add: (T, T) -> T, zero: T, n: nat, x: T, high: T, low: T)
    requires Algebra(add, zero) && Linear(f, add) && x == add(high, low)
    ensures Iter(f, n, x) == add(Iter(f, n, low), Iter(f, n, high))
  {
    IterLinear(f, add, n, high, low);
  }

  lemma {:induction false} IterSum<T>(f: T -> T, m: nat, n: nat, x: T)
    ensures Iter(f, m + n, x) == Iter(f, n, Iter(f, m, x))
  {
    if m > 0 {
      IterSum(f, m - 1, n, f(x));
    }
  }

  lemma {:induction false} IterInjective<T(!new)>(f: T -> T, n: nat, a: T, b: T)
    requires Injective(f) && Iter(f, n, a) == Iter(f, n, b)
    ensures a == b
  {
    if n > 0 {
      IterInjective(f, n - 1, f(a), f(b));
    }
  }

  lemma {:induction false} FeedTopAppend<T>(f: T -> T, add: (T, T) -> T, put: bool -> T, r: T, a: seq<bool>, b: seq<bool>)
    ensures FeedTop(f, add, put, r, a + b) == FeedTop(f, add, put, FeedTop(f, add, put, r, a), b)
    decreases |a|
  {
    if a == [] {
      assert a + b == b;
    } else {
      assert (a + b)[1..] == a[1..] + b;
      FeedTopAppend(f, add, put, f(add(r, put(a[0]))), a[1..], b);
    }
  }

  lemma {:induction false} FeedLowAppend<T>(f: T -> T, add: (T, T) -> T, unit: bool -> T, r: T, a: seq<bool>, b: seq<bool>)
    ensures FeedLow(f, add, unit, r, a + b) == FeedLow(f, add, unit, FeedLow(f, add, unit, r, a), b)
    decreases |a|
  {
    if a == [] {
      assert a + b == b;
    } else {
      assert (a + b)[1..] == a[1..] + b;
      FeedLowAppend(f, add, unit, add(f(r), unit(a[0])), a[1..], b);
    }
  }

  /** Appending zeros to the dividend just shifts the remainder. */
  lemma {:induction false} FeedLowZeros<T(!new)>(f: T -> T, add: (T, T) -> T, unit: bool -> T, zero: T, r: T, n: nat)
    requires Algebra(add, zero) && unit(false) == zero
    ensures FeedLow(f, add, unit, r, seq(n, _ => false)) == Iter(f, n, r)
  {
    if n > 0 {
      var bits := seq(n, _ => false);
      assert bits[1..] == seq(n - 1, _ => false);
      FeedLowZeros(f, add, unit, zero, f(r), n - 1);
    }
  }

  /** The content of the register and the input act independently. */
  lemma {:induction false} FeedTopSplit<T(!new)>(f: T -> T, add: (T, T) -> T, put: bool -> T, zero: T,
                                                 r: T, s: T, bits: seq<bool>)
    requires Algebra(add, zero) && Linear(f, add)
    ensures FeedTop(f, add, put, add(r, s), bits) == add(Iter(f, |bits|, r), FeedTop(f, add, put, s, bits))
    decreases |bits|
  {
    if bits != [] {
      var x := put(bits[0]);
      assert add(add(r, s), x) == add(r, add(s, x));
      FeedTopSplit(f, add, put, zero, f(r), f(add(s, x)), bits[1..]);
    }
  }

  /** Adding a bit at the top end is adding it at the low end w positions earlier. */
  lemma {:induction false} FeedTopIsFeedLow<T(!new)>(f: T -> T, add: (T, T) -> T, put: bool -> T, unit: bool -> T,
                                                     w: nat, r: T, bits: seq<bool>)
    requires Linear(f, add) && forall b :: f(put(b)) == Iter(f, w, unit(b))
    ensures FeedTop(f, add, put, Iter(f, w, r), bits) == Iter(f, w, FeedLow(f, add, unit, r, bits))
    decreases |bits|
  {
    if bits != [] {
      var next := add(f(r), unit(bits[0]));
      IterSum(f, w, 1, r);
      IterSum(f, 1, w, r);
      assert f(Iter(f, w, r)) == Iter(f, w, f(r)) by {
        assert Iter(f, 1, Iter(f, w, r)) == Iter(f, 0, f(Iter(f, w, r)));
        assert Iter(f, 1, r) == Iter(f, 0, f(r));
      }
      IterLinear(f, add, w, f(r), unit(bits[0]));
      FeedTopIsFeedLow(f, add, put, unit, w, next, bits[1..]);
    }
  }

  /** Equal input keeps different registers apart. */
  lemma {:induction false} FeedTopInjective<T(!new)>(f: T -> T, add: (T, T) -> T, put: bool -> T, zero: T,
                                                     r: T, s: T, bits: seq<bool>)
    requires Algebra(add, zero) && Injective(f)
    requires FeedTop(f, add, put, r, bits) == FeedTop(f, add, put, s, bits)
    ensures r == s
    decreases |bits|
  {
    if bits != [] {
      var x := put(bits[0]);
      FeedTopInjective(f, add, put, zero, f(add(r, x)), f(add(s, x)), bits[1..]);
      Cancel(add, zero, x, r, s);
    }
  }

  lemma FeedFrom<T(!new)>(f: T -> T, add: (T, T) -> T, put: bool -> T, zero: T, r: T, bits: seq<bool>)
    requires Algebra(add, zero) && Linear(f, add)
    ensures FeedTop(f, add, put, r, bits) == add(Iter(f, |bits|, r), FeedTop(f, add, put, zero, bits))
  {
    FeedTopSplit(f, add, put, zero, r, zero, bits);
  }

  lemma IterShort<T>(f: T -> T, w: nat, n: nat, v: T, x: T)
    requires n <= w && x == Iter(f, w - n, v)
    ensures Iter(f, w, v) == Iter(f, n, x)
  {
    IterSum(f, w - n, n, v);
  }

  /** Feeding at most w bits is adding them, as one word x at the top end, and advancing the register. */
  lemma FeedWord<T(!new)>(f: T -> T, add: (T, T) -> T, put: bool -> T, unit: bool -> T, zero: T,
                          w: nat, r: T, x: T, bits: seq<bool>)
    requires Machine(f, add, put, unit, zero, w)
    requires |bits| <= w && x == Iter(f, w - |bits|, FeedLow(f, add, unit, zero, bits))
    ensures FeedTop(f, add, put, r, bits) == Iter(f, |bits|, add(r, x))
  {
    FeedFrom(f, add, put, zero, r, bits);
    FeedFromZero(f, add, put, unit, zero, w, bits);
    IterShort(f, w, |bits|, FeedLow(f, add, unit, zero, bits), x);
    IterLinear(f, add, |bits|, r, x);
  }

  lemma FeedFromZero<T(!new)>(f: T -> T, add: (T, T) -> T, put: bool -> T, unit: bool -> T, zero: T,
                              w: nat, bits: seq<bool>)
    requires Machine(f, add, put, unit, zero, w)
    ensures FeedTop(f, add, put, zero, bits) == Iter(f, w, FeedLow(f, add, unit, zero, bits))
  {
    LinearZero(f, add, zero);
    IterZero(f, w, zero);
    FeedTopIsFeedLow(f, add, put, unit, w, zero, bits);
  }

  /** The register after `bits` is the remainder of (r shifted by |bits|) plus (bits shifted by w). */
  lemma FeedIsRemainder<T(!new)>(f: T -> T, add: (T, T) -> T, put: bool -> T, unit: bool -> T, zero: T,
                                 w: nat, r: T, bits: seq<bool>)
    requires Machine(f, add, put, unit, zero, w)
    ensures FeedTop(f, add, put, r, bits)
            == add(FeedLow(f, add, unit, r, seq(|bits|, _ => false)),
                   FeedLow(f, add, unit, zero, bits + seq(w, _ => false)))
  {
    FeedFrom(f, add, put, zero, r, bits);
    FeedFromZero(f, add, put, unit, zero, w, bits);
    FeedLowZeros(f, add, unit, zero, r, |bits|);
    FeedLowAppend(f, add, unit, zero, bits, seq(w, _ => false));
    FeedLowZeros(f, add, unit, zero, FeedLow(f, add, unit, zero, bits), w);
  }

  /** Inputs that differ only in a stretch u, v where the division has not begun leave different registers. */
  lemma StretchMatters<T(!new)>(f: T -> T, add: (T, T) -> T, put: bool -> T, unit: bool -> T, zero: T, w: nat, r: T,
                                before: seq<bool>, u: seq<bool>, v: seq<bool>, after: seq<bool>)
    requires Machine(f, add, put, unit, zero, w) && Injective(f)
    requires |u| == |v|
    requires FeedTop(f, add, put, r, before + u + after) == FeedTop(f, add, put, r, before + v + after)
    ensures FeedLow(f, add, unit, zero, u) == FeedLow(f, add, unit, zero, v)
  {
    var s := FeedTop(f, add, put, r, before);
    FeedTopAppend(f, add, put, r, before + u, after);
    FeedTopAppend(f, add, put, r, before + v, after);
    FeedTopAppend(f, add, put, r, before, u);
    FeedTopAppend(f, add, put, r, before, v);
    FeedTopInjective(f, add, put, zero, FeedTop(f, add, put, s, u), FeedTop(f, add, put, s, v), after);
    FeedFrom(f, add, put, zero, s, u);
    FeedFrom(f, add, put, zero, s, v);
    Cancel(add, zero, Iter(f, |u|, s), FeedTop(f, add, put, zero, u), FeedTop(f, add, put, zero, v));
    FeedFromZero(f, add, put, unit, zero, w, u);
    FeedFromZero(f, add, put, unit, zero, w, v);
    IterInjective(f, w, FeedLow(f, add, unit, zero, u), FeedLow(f, add, unit, zero, v));
  }
}
