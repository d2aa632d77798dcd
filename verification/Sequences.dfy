/** Concatenations and runs over the members of a sequence, member by member. */
module Sequences {
  lemma ConcatAssociative<T>(a: seq<T>, b: seq<T>, c: seq<T>)
    ensures a + (b + c) == (a + b) + c
  {
  }

  /** The images of the first k members, one after the other. */
  function ConcatUpTo<T, B>(f: T -> seq<B>, xs: seq<T>, k: nat): seq<B>
    requires k <= |xs|
  {
    if k == 0 then [] else ConcatUpTo(f, xs, k - 1) + f(xs[k - 1])
  }

  function ConcatMap<T, B>(f: T -> seq<B>, xs: seq<T>): seq<B> {
    ConcatUpTo(f, xs, |xs|)
  }

  lemma {:induction false} ConcatUpToAgrees<T, B>(f: T -> seq<B>, xs: seq<T>, ys: seq<T>, k: nat)
    requires k <= |xs| && k <= |ys|
    requires forall i :: 0 <= i < k ==> xs[i] == ys[i]
    ensures ConcatUpTo(f, xs, k) == ConcatUpTo(f, ys, k)
  {
    if k > 0 {
      ConcatUpToAgrees(f, xs, ys, k - 1);
    }
  }

  lemma {:induction false} ConcatUpToPrefix<T, B>(f: T -> seq<B>, xs: seq<T>, j: nat, k: nat)
    requires j <= k <= |xs|
    ensures ConcatUpTo(f, xs, j) <= ConcatUpTo(f, xs, k)
  {
    if j < k {
      ConcatUpToPrefix(f, xs, j, k - 1);
    }
  }

  lemma ConcatMapSnoc<T, B>(f: T -> seq<B>, xs: seq<T>, x: T)
    ensures ConcatMap(f, xs + [x]) == ConcatMap(f, xs) + f(x)
  {
    ConcatUpToAgrees(f, xs + [x], xs, |xs|);
  }

  /** The state after the first k inputs. */
  function RunUpTo<S, A>(step: (S, A) -> S, s: S, xs: seq<A>, k: nat): S
    requires k <= |xs|
  {
    if k == 0 then s else step(RunUpTo(step, s, xs, k - 1), xs[k - 1])
  }

  function RunAll<S, A>(step: (S, A) -> S, s: S, xs: seq<A>): S {
    RunUpTo(step, s, xs, |xs|)
  }

  lemma {:induction false} RunUpToAgrees<S, A>(step: (S, A) -> S, s: S, xs: seq<A>, ys: seq<A>, k: nat)
    requires k <= |xs| && k <= |ys|
    requires forall i :: 0 <= i < k ==> xs[i] == ys[i]
    ensures RunUpTo(step, s, xs, k) == RunUpTo(step, s, ys, k)
  {
    if k > 0 {
      RunUpToAgrees(step, s, xs, ys, k - 1);
    }
  }

  lemma RunPrefix<S, A>(step: (S, A) -> S, s: S, xs: seq<A>, k: nat)
    requires k <= |xs|
    ensures RunAll(step, s, xs[..k]) == RunUpTo(step, s, xs, k)
  {
    RunUpToAgrees(step, s, xs[..k], xs, k);
  }

  lemma RunSnoc<S, A>(step: (S, A) -> S, s: S, xs: seq<A>, x: A)
    ensures RunAll(step, s, xs + [x]) == step(RunAll(step, s, xs), x)
  {
    RunUpToAgrees(step, s, xs + [x], xs, |xs|);
  }

  lemma {:induction false} RunUpToConcat<S, A>(step: (S, A) -> S, s: S, xs: seq<A>, ys: seq<A>, k: nat)
    requires k <= |ys|
    ensures RunUpTo(step, s, xs + ys, |xs| + k) == RunUpTo(step, RunAll(step, s, xs), ys, k)
  {
    if k == 0 {
      RunUpToAgrees(step, s, xs + ys, xs, |xs|);
    } else {
      RunUpToConcat(step, s, xs, ys, k - 1);
      assert (xs + ys)[|xs| + k - 1] == ys[k - 1];
    }
  }

  lemma RunConcat<S, A>(step: (S, A) -> S, s: S, xs: seq<A>, ys: seq<A>)
    ensures RunAll(step, s, xs + ys) == RunAll(step, RunAll(step, s, xs), ys)
  {
    RunUpToConcat(step, s, xs, ys, |ys|);
  }

  /** What every step keeps, every run keeps. */
  lemma {:induction false} InvariantKept<S(!new), A(!new)>(
      step: (S, A) -> S, inv: S -> bool, s: S, xs: seq<A>, j: nat, k: nat)
    requires j <= k <= |xs| && inv(RunUpTo(step, s, xs, j))
    requires forall t, x {:trigger step(t, x)} :: inv(t) ==> inv(step(t, x))
    ensures inv(RunUpTo(step, s, xs, k))
  {
    if j < k {
      InvariantKept(step, inv, s, xs, j, k - 1);
    }
  }

  /** A property of state and input that holds at every step of a run. */
  ghost predicate HoldsAt<S, A>(ok: (S, A) -> bool, step: (S, A) -> S, s: S, xs: seq<A>, k: nat)
    requires k < |xs|
  {
    ok(RunUpTo(step, s, xs, k), xs[k])
  }

  ghost predicate HoldsThroughout<S, A>(ok: (S, A) -> bool, step: (S, A) -> S, s: S, xs: seq<A>) {
    forall k :: 0 <= k < |xs| ==> HoldsAt(ok, step, s, xs, k)
  }

  lemma HoldsThroughoutConcat<S, A>(ok: (S, A) -> bool, step: (S, A) -> S, s: S, xs: seq<A>, ys: seq<A>)
    requires HoldsThroughout(ok, step, s, xs)
    requires HoldsThroughout(ok, step, RunAll(step, s, xs), ys)
    ensures HoldsThroughout(ok, step, s, xs + ys)
  {
    forall k | 0 <= k < |xs + ys| ensures HoldsAt(ok, step, s, xs + ys, k) {
      if k < |xs| {
        assert HoldsAt(ok, step, s, xs, k);
        RunUpToAgrees(step, s, xs + ys, xs, k);
      } else {
        assert HoldsAt(ok, step, RunAll(step, s, xs), ys, k - |xs|);
        RunUpToConcat(step, s, xs, ys, k - |xs|);
      }
    }
  }
}

