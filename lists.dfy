/**
 * Python's filtering list builders, `[f(x) for x in xs if keep(x)]` and the loops that append
 * `f(x)` for the `x` they do not skip, with the facts the pipeline's loops rely on.
 */
module Lists {

  /** `[f(x) for x in xs if keep(x)]`, built from the end so that a loop over `xs` can follow it. */
  function KeepMap<T, U>(xs: seq<T>, keep: T -> bool, f: T -> U): seq<U> {
    if xs == [] then []
    else
      var last := xs[|xs| - 1];
      KeepMap(xs[..|xs| - 1], keep, f) + (if keep(last) then [f(last)] else [])
  }

  /** One more turn of the loop: the next element is appended when it is kept. */
  lemma KeepMapStep<T, U>(xs: seq<T>, i: nat, keep: T -> bool, f: T -> U)
    requires i < |xs|
    ensures KeepMap(xs[..i + 1], keep, f) == KeepMap(xs[..i], keep, f) + (if keep(xs[i]) then [f(xs[i])] else [])
  {
    assert xs[..i + 1][..i] == xs[..i];
  }

  /** Keeping distributes over concatenation: each element contributes on its own, in order. */
  lemma {:induction false} KeepMapAppend<T, U>(xs: seq<T>, ys: seq<T>, keep: T -> bool, f: T -> U)
    ensures KeepMap(xs + ys, keep, f) == KeepMap(xs, keep, f) + KeepMap(ys, keep, f)
    decreases |ys|
  {
    if ys == [] {
      assert xs + ys == xs;
    } else {
      var init := ys[..|ys| - 1];
      assert (xs + ys)[..|xs + ys| - 1] == xs + init;
      KeepMapAppend(xs, init, keep, f);
    }
  }

  /** A one-element list gives `[f(x)]` when `x` is kept and nothing otherwise. */
  lemma KeepMapOne<T, U>(x: T, keep: T -> bool, f: T -> U)
    ensures KeepMap([x], keep, f) == if keep(x) then [f(x)] else []
  {
    assert [x][..0] == [];
  }

  /** The result is empty exactly when no element is kept. */
  lemma {:induction false} KeepMapEmpty<T, U>(xs: seq<T>, keep: T -> bool, f: T -> U)
    ensures KeepMap(xs, keep, f) == [] <==> forall k | 0 <= k < |xs| :: !keep(xs[k])
    decreases |xs|
  {
    if xs != [] {
      var init := xs[..|xs| - 1];
      KeepMapEmpty(init, keep, f);
      assert forall k | 0 <= k < |init| :: init[k] == xs[k];
    }
  }

  /** Index `j` holds the first kept element. */
  ghost predicate FirstKept<T>(xs: seq<T>, keep: T -> bool, j: nat) {
    j < |xs| && keep(xs[j]) && forall k | 0 <= k < j :: !keep(xs[k])
  }

  /** There is one first kept element at most. */
  lemma FirstKeptUnique<T>(xs: seq<T>, keep: T -> bool, i: nat, j: nat)
    requires FirstKept(xs, keep, i) && FirstKept(xs, keep, j)
    ensures i == j
  {
  }

  /** The first result comes from the first kept element. */
  lemma {:induction false} KeepMapFirst<T, U>(xs: seq<T>, keep: T -> bool, f: T -> U)
    requires KeepMap(xs, keep, f) != []
    ensures exists j: nat :: FirstKept(xs, keep, j) && KeepMap(xs, keep, f)[0] == f(xs[j])
    decreases |xs|
  {
    var n := |xs|;
    var init := xs[..n - 1];
    if KeepMap(init, keep, f) != [] {
      KeepMapFirst(init, keep, f);
      var j: nat :| FirstKept(init, keep, j) && KeepMap(init, keep, f)[0] == f(init[j]);
      assert init[j] == xs[j];
      assert forall k | 0 <= k < j :: init[k] == xs[k];
      assert FirstKept(xs, keep, j);
    } else {
      KeepMapEmpty(init, keep, f);
      assert forall k | 0 <= k < n - 1 :: init[k] == xs[k];
      assert FirstKept(xs, keep, n - 1);
    }
  }

  /** Every result is `f` of a kept element. */
  lemma {:induction false} KeepMapMembers<T, U>(xs: seq<T>, keep: T -> bool, f: T -> U)
    ensures forall y | y in KeepMap(xs, keep, f) :: exists x | x in xs :: keep(x) && y == f(x)
    decreases |xs|
  {
    if xs != [] {
      var init, last := xs[..|xs| - 1], xs[|xs| - 1];
      KeepMapMembers(init, keep, f);
      assert forall x | x in init :: x in xs;
      assert last in xs;
    }
  }

  /** `[f(x) for x in xs]`, built from the end so that a loop over `xs` can follow it. */
  function Mapped<T, U>(xs: seq<T>, f: T -> U): (ys: seq<U>)
    ensures |ys| == |xs|
    ensures forall k | 0 <= k < |xs| :: ys[k] == f(xs[k])
  {
    if xs == [] then [] else Mapped(xs[..|xs| - 1], f) + [f(xs[|xs| - 1])]
  }

  /** One more turn of the loop: the image of the next element is appended. */
  lemma MappedStep<T, U>(xs: seq<T>, i: nat, f: T -> U)
    requires i < |xs|
    ensures Mapped(xs[..i + 1], f) == Mapped(xs[..i], f) + [f(xs[i])]
  {
    assert xs[..i + 1][..i] == xs[..i];
  }
}
