/** The selection step shared by both genre-ranking variants: a list
    comprehension that keeps the records satisfying a test, and a
    `functools.reduce` without an initial value that keeps the record whose
    sort key `(-rating, name)` is smallest, replacing the current best only
    on a strictly smaller key. */
module Ranking {

  /** Python's `<` on `str`: lexicographic by code point, a proper prefix
      being smaller. (Dafny's own `<` on sequences means "proper prefix".) */
  predicate LexLess(a: string, b: string)
    decreases |a|
  {
    if |a| == 0 then |b| > 0
    else |b| > 0 && (a[0] < b[0] || (a[0] == b[0] && LexLess(a[1..], b[1..])))
  }

  lemma {:induction false} LexLessIrreflexive(a: string)
    ensures !LexLess(a, a)
    decreases |a|
  {
    if |a| > 0 {
      LexLessIrreflexive(a[1..]);
    }
  }

  lemma {:induction false} LexLessTransitive(a: string, b: string, c: string)
    requires LexLess(a, b) && LexLess(b, c)
    ensures LexLess(a, c)
    decreases |a|
  {
    if |a| > 0 && a[0] == b[0] && b[0] == c[0] {
      LexLessTransitive(a[1..], b[1..], c[1..]);
    }
  }

  /** Any two distinct strings are ordered one way or the other. */
  lemma {:induction false} LexLessTotal(a: string, b: string)
    ensures a == b || LexLess(a, b) || LexLess(b, a)
    decreases |a|
  {
    if |a| > 0 && |b| > 0 && a[0] == b[0] {
      LexLessTotal(a[1..], b[1..]);
      if a[1..] == b[1..] {
        assert a == [a[0]] + a[1..] && b == [b[0]] + b[1..];
      }
    }
  }

  lemma {:induction false} LexLessAsymmetric(a: string, b: string)
    requires LexLess(a, b)
    ensures !LexLess(b, a)
  {
    if LexLess(b, a) {
      LexLessTransitive(a, b, a);
      LexLessIrreflexive(a);
    }
  }

  /** The tuple `(-rating, name)` both variants compare. */
  datatype RankKey = RankKey(negRating: real, name: string)

  /** Python's tuple `<`: first components decide unless they are equal. */
  function KeyLess(a: RankKey, b: RankKey): (r: bool)
    ensures a.negRating < b.negRating ==> r
    ensures b.negRating < a.negRating ==> !r
    ensures a.name == b.name ==> (r <==> a.negRating < b.negRating)
  {
    LexLessIrreflexive(a.name);
    a.negRating < b.negRating || (a.negRating == b.negRating && LexLess(a.name, b.name))
  }

  /** "Not strictly greater": the order the reduction leaves its result in. */
  predicate KeyLe(a: RankKey, b: RankKey) {
    !KeyLess(b, a)
  }

  lemma KeyLessIrreflexive(a: RankKey)
    ensures !KeyLess(a, a)
  {
    LexLessIrreflexive(a.name);
  }

  lemma KeyLessTransitive(a: RankKey, b: RankKey, c: RankKey)
    requires KeyLess(a, b) && KeyLess(b, c)
    ensures KeyLess(a, c)
  {
    if a.negRating == b.negRating && b.negRating == c.negRating {
      LexLessTransitive(a.name, b.name, c.name);
    }
  }

  lemma KeyLessTotal(a: RankKey, b: RankKey)
    ensures a == b || KeyLess(a, b) || KeyLess(b, a)
  {
    LexLessTotal(a.name, b.name);
  }

  /** `KeyLe` is `==` or `KeyLess`. */
  lemma KeyLeCases(a: RankKey, b: RankKey)
    ensures KeyLe(a, b) <==> a == b || KeyLess(a, b)
  {
    KeyLessTotal(a, b);
    KeyLessIrreflexive(a);
    if KeyLess(a, b) {
      KeyLessAsymmetric(a, b);
    }
  }

  lemma KeyLessAsymmetric(a: RankKey, b: RankKey)
    requires KeyLess(a, b)
    ensures !KeyLess(b, a)
  {
    if a.negRating == b.negRating {
      LexLessAsymmetric(a.name, b.name);
    }
  }

  lemma KeyLessLeTransitive(a: RankKey, b: RankKey, c: RankKey)
    requires KeyLess(a, b) && KeyLe(b, c)
    ensures KeyLess(a, c)
  {
    KeyLeCases(b, c);
    if b != c {
      KeyLessTransitive(a, b, c);
    }
  }

  lemma KeyLeAntisymmetric(a: RankKey, b: RankKey)
    requires KeyLe(a, b) && KeyLe(b, a)
    ensures a == b
  {
    KeyLessTotal(a, b);
  }

  /** The comprehension `[x for x in xs if p(x)]`: the elements satisfying
      `p`, in their original order. */
  function Filter<T(!new)>(xs: seq<T>, p: T -> bool): (r: seq<T>)
    ensures |r| <= |xs|
    ensures forall x :: x in r <==> x in xs && p(x)
    ensures r == [] <==> forall x :: x in xs ==> !p(x)
  {
    if xs == [] then []
    else (if p(xs[0]) then [xs[0]] else []) + Filter(xs[1..], p)
  }

  /** Filtering works element by element, keeping the input's order:
      together with the one-element case this pins the result down. */
  lemma {:induction false} FilterConcat<T(!new)>(a: seq<T>, b: seq<T>, p: T -> bool)
    ensures Filter(a + b, p) == Filter(a, p) + Filter(b, p)
  {
    if a == [] {
      assert a + b == b;
    } else {
      calc {
        Filter(a + b, p);
        { assert (a + b)[0] == a[0]; assert (a + b)[1..] == a[1..] + b; }
        (if p(a[0]) then [a[0]] else []) + Filter(a[1..] + b, p);
        { FilterConcat(a[1..], b, p); }
        (if p(a[0]) then [a[0]] else []) + (Filter(a[1..], p) + Filter(b, p));
        ((if p(a[0]) then [a[0]] else []) + Filter(a[1..], p)) + Filter(b, p);
        Filter(a, p) + Filter(b, p);
      }
    }
  }

  /** The lambda passed to `reduce`: the current element wins only when its
      key is strictly smaller. */
  function Pick<T>(best: T, current: T, key: T -> RankKey): (r: T)
    ensures r == best || r == current
    ensures KeyLe(key(r), key(best)) && KeyLe(key(r), key(current))
    ensures key(current) == key(best) ==> r == best
  {
    KeyLessIrreflexive(key(best));
    KeyLessIrreflexive(key(current));
    if KeyLess(key(current), key(best)) then
      KeyLessAsymmetric(key(current), key(best));
      current
    else
      best
  }

  /** `reduce(Pick, xs)` with no initial value: a left fold that starts from
      `xs[0]`. Python raises on an empty list, hence the precondition. */
  function Reduce<T>(xs: seq<T>, key: T -> RankKey): (r: T)
    requires |xs| > 0
    ensures r in xs
    decreases |xs|
  {
    if |xs| == 1 then xs[0]
    else Pick(Reduce(xs[..|xs| - 1], key), xs[|xs| - 1], key)
  }

  /** Position `k` holds a smallest key, and every earlier position a
      strictly larger one: `k` is the first position of the minimum. */
  predicate IsFirstMinimal<T>(xs: seq<T>, key: T -> RankKey, k: int) {
    && 0 <= k < |xs|
    && (forall i :: 0 <= i < |xs| ==> KeyLe(key(xs[k]), key(xs[i])))
    && (forall i :: 0 <= i < k ==> KeyLess(key(xs[k]), key(xs[i])))
  }

  /** The fold returns the first element of smallest key: highest rating,
      then alphabetically first name, then earliest position. */
  lemma {:induction false} ReduceIsFirstMinimal<T>(xs: seq<T>, key: T -> RankKey)
    requires |xs| > 0
    ensures exists k :: IsFirstMinimal(xs, key, k) && xs[k] == Reduce(xs, key)
    decreases |xs|
  {
    var n := |xs|;
    if n == 1 {
      KeyLessIrreflexive(key(xs[0]));
      assert IsFirstMinimal(xs, key, 0);
    } else {
      var p := xs[..n - 1];
      ReduceIsFirstMinimal(p, key);
      var k :| IsFirstMinimal(p, key, k) && p[k] == Reduce(p, key);
      assert Reduce(xs, key) == Pick(p[k], xs[n - 1], key);
      if KeyLess(key(xs[n - 1]), key(p[k])) {
        FirstMinimalNewWinner(xs, key, k);
      } else {
        FirstMinimalKeep(xs, key, k);
      }
    }
  }

  /** A last element strictly below the prefix's minimum is the new first
      minimum. */
  lemma FirstMinimalNewWinner<T>(xs: seq<T>, key: T -> RankKey, k: int)
    requires |xs| >= 2 && IsFirstMinimal(xs[..|xs| - 1], key, k)
    requires KeyLess(key(xs[|xs| - 1]), key(xs[k]))
    ensures IsFirstMinimal(xs, key, |xs| - 1)
  {
    var n := |xs|;
    var c := xs[n - 1];
    assert forall i :: 0 <= i < n - 1 ==> xs[i] == xs[..n - 1][i];
    forall i | 0 <= i < n - 1
      ensures KeyLess(key(c), key(xs[i]))
    {
      KeyLessLeTransitive(key(c), key(xs[k]), key(xs[i]));
    }
    forall i | 0 <= i < n
      ensures KeyLe(key(c), key(xs[i]))
    {
      if i < n - 1 {
        KeyLessAsymmetric(key(c), key(xs[i]));
      } else {
        KeyLessIrreflexive(key(c));
      }
    }
  }

  /** Otherwise the prefix's first minimum stays the first minimum. */
  lemma FirstMinimalKeep<T>(xs: seq<T>, key: T -> RankKey, k: int)
    requires |xs| >= 2 && IsFirstMinimal(xs[..|xs| - 1], key, k)
    requires !KeyLess(key(xs[|xs| - 1]), key(xs[k]))
    ensures IsFirstMinimal(xs, key, k)
  {
    assert forall i :: 0 <= i < |xs| - 1 ==> xs[i] == xs[..|xs| - 1][i];
  }

  /** The result's key is no larger than any element's key. */
  lemma ReduceIsMinimal<T>(xs: seq<T>, key: T -> RankKey, y: T)
    requires |xs| > 0 && y in xs
    ensures KeyLe(key(Reduce(xs, key)), key(y))
  {
    ReduceIsFirstMinimal(xs, key);
    var k :| IsFirstMinimal(xs, key, k) && xs[k] == Reduce(xs, key);
    var i :| 0 <= i < |xs| && xs[i] == y;
  }

  /** The winning key depends only on which elements are present, not on
      their order or repetition; only the choice among elements of equal
      key depends on arrival order. */
  lemma ReduceKeyOrderIndependent<T>(xs: seq<T>, ys: seq<T>, key: T -> RankKey)
    requires |xs| > 0
    requires forall x :: x in xs <==> x in ys
    ensures |ys| > 0 && key(Reduce(xs, key)) == key(Reduce(ys, key))
  {
    assert xs[0] in ys;
    var rx, ry := Reduce(xs, key), Reduce(ys, key);
    ReduceIsMinimal(xs, key, ry);
    ReduceIsMinimal(ys, key, rx);
    KeyLeAntisymmetric(key(rx), key(ry));
  }
}
