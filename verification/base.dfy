/**
 Small building blocks shared by the whole model: an optional value (JavaScript's
 `undefined`), a result with an error branch (a thrown exception), and the few
 JavaScript array primitives the components rely on (`indexOf`, out-of-range reads).
 */
module Base {

  /** `None` plays the part of JavaScript's `undefined`. */
  datatype Option<+T> = None | Some(value: T)

  /** `Failure` plays the part of a thrown `Error`. */
  datatype Result<+T, +E> = Success(value: T) | Failure(error: E)

  /** JavaScript truthiness of an optional string: `undefined` and `""` are falsy. */
  predicate Truthy(s: Option<string>) {
    s.Some? && s.value != ""
  }

  /** All elements are pairwise different. */
  predicate Distinct<T(==)>(s: seq<T>) {
    forall i, j :: 0 <= i < j < |s| ==> s[i] != s[j]
  }

  /** `Array.prototype.indexOf`: the first position of `x`, or -1. */
  function IndexOf<T(==)>(s: seq<T>, x: T): (r: int)
    ensures -1 <= r < |s|
    ensures r == -1 <==> x !in s
    ensures 0 <= r ==> s[r] == x
    ensures forall j :: 0 <= j < r ==> s[j] != x
  {
    if |s| == 0 then -1
    else if s[0] == x then 0
    else
      var r := IndexOf(s[1..], x);
      if r == -1 then -1 else r + 1
  }

  /** A JavaScript array read `s[i]`: an index out of range reads `undefined`. */
  function At<T>(s: seq<T>, i: int): (r: Option<T>)
    ensures r.Some? <==> 0 <= i < |s|
    ensures r.Some? ==> r.value == s[i]
  {
    if 0 <= i < |s| then Some(s[i]) else None
  }

  /** `indexOf` finds the first occurrence and no other. */
  lemma IndexOfFirst<T>(s: seq<T>, x: T, i: int)
    requires 0 <= i < |s| && s[i] == x
    requires forall j :: 0 <= j < i ==> s[j] != x
    ensures IndexOf(s, x) == i
  {
  }

  /** The results of `f` on each element, concatenated in order (`Array.prototype.flatMap`). */
  function Flatten<T, U>(f: T -> seq<U>, s: seq<T>): seq<U>
    decreases |s|
  {
    if |s| == 0 then [] else Flatten(f, s[..|s| - 1]) + f(s[|s| - 1])
  }

  /** Flattening distributes over concatenation. */
  lemma {:induction false} FlattenAppend<T, U>(f: T -> seq<U>, a: seq<T>, b: seq<T>)
    ensures Flatten(f, a + b) == Flatten(f, a) + Flatten(f, b)
    decreases |b|
  {
    if |b| == 0 {
      assert a + b == a;
    } else {
      var n := |b| - 1;
      var ab := a + b;
      assert ab[..|ab| - 1] == a + b[..n];
      assert ab[|ab| - 1] == b[n];
      FlattenAppend(f, a, b[..n]);
      var x, y, z := Flatten(f, a), Flatten(f, b[..n]), f(b[n]);
      assert Flatten(f, ab) == (x + y) + z;
      assert (x + y) + z == x + (y + z);
    }
  }

  /** An element of the flattening comes from one of the elements. */
  lemma {:induction false} FlattenMembers<T, U>(f: T -> seq<U>, s: seq<T>, u: U)
    ensures u in Flatten(f, s) <==> exists i :: 0 <= i < |s| && u in f(s[i])
    decreases |s|
  {
    if |s| > 0 {
      var n := |s| - 1;
      var front := s[..n];
      FlattenMembers(f, front, u);
      assert Flatten(f, s) == Flatten(f, front) + f(s[n]);
      if u in Flatten(f, front) {
        var i :| 0 <= i < n && u in f(front[i]);
        assert front[i] == s[i];
      }
      if exists i :: 0 <= i < |s| && u in f(s[i]) {
        var i :| 0 <= i < |s| && u in f(s[i]);
        if i < n {
          assert front[i] == s[i];
        }
      }
    }
  }

  /** `step` applied to the indices 0, 1, …, n - 1 in turn, starting from `init`: a `for` loop. */
  function Iterate<A>(step: (A, nat) -> A, init: A, n: nat): A
    decreases n
  {
    if n == 0 then init else step(Iterate(step, init, n - 1), n - 1)
  }

  /** A loop invariant: holding before the loop and kept by each step, it holds after `n` steps. */
  lemma {:induction false} IterateInvariant<A>(step: (A, nat) -> A, inv: (A, nat) -> bool, init: A, n: nat)
    requires inv(init, 0)
    requires forall a, i: nat {:trigger step(a, i)} :: i < n && inv(a, i) ==> inv(step(a, i), i + 1)
    ensures inv(Iterate(step, init, n), n)
    decreases n
  {
    if n > 0 {
      IterateInvariant(step, inv, init, n - 1);
    }
  }

  /** The loop body of the last `n` steps, counted from step `m`. */
  function Shift<A>(step: (A, nat) -> A, m: nat): (A, nat) -> A {
    (a: A, i: nat) => step(a, i + m)
  }

  /** Running `m` steps and then `n` more is running `m + n` steps. */
  lemma {:induction false} IterateSplit<A>(step: (A, nat) -> A, init: A, m: nat, n: nat)
    requires m <= n
    ensures Iterate(step, init, n) == Iterate(Shift(step, m), Iterate(step, init, m), n - m)
    decreases n
  {
    if n > m {
      IterateSplit(step, init, m, n - 1);
    }
  }

  /** A sequence that starts with `a` starts with every prefix of `a`. */
  lemma PrefixOfPrefix<T>(a: seq<T>, b: seq<T>, k: int)
    requires |a| <= |b| && b[..|a|] == a && 0 <= k <= |a|
    ensures b[..k] == a[..k]
  {
    assert forall i :: 0 <= i < k ==> b[..k][i] == b[..|a|][i];
  }
}
