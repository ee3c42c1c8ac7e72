/**
 * The class invariant of the two-way dictionary, stated over its two maps:
 * `f` (forward) and `b` (backward) are inverse to each other.
 */
module Bijection {

  /** Every pair x -> y of `f` appears as y -> x in `b`, and every pair of `b` appears reversed in `f`. */
  ghost predicate Bijective<A, B>(f: map<A, B>, b: map<B, A>) {
    && (forall x :: x in f ==> f[x] in b && b[f[x]] == x)
    && (forall y :: y in b ==> b[y] in f && f[b[y]] == y)
  }

  /** The invariant does not privilege a direction. */
  lemma Flip<A, B>(f: map<A, B>, b: map<B, A>)
    ensures Bijective(f, b) <==> Bijective(b, f)
  {
  }

  /** No element is claimed by two pairs: the forward map is injective. */
  lemma Injective<A, B>(f: map<A, B>, b: map<B, A>)
    requires Bijective(f, b)
    ensures forall x1, x2 :: x1 in f && x2 in f && f[x1] == f[x2] ==> x1 == x2
  {
  }

  /** The keys of each direction are exactly the values of the other. */
  lemma KeysAreValues<A, B>(f: map<A, B>, b: map<B, A>)
    requires Bijective(f, b)
    ensures f.Keys == b.Values
    ensures b.Keys == f.Values
  {
  }

  /** Adding a pair of two unpaired elements to both directions keeps the invariant. */
  lemma InsertKeepsBijective<A, B>(f: map<A, B>, b: map<B, A>, x: A, y: B)
    requires Bijective(f, b)
    requires x !in f && y !in b
    ensures Bijective(f[x := y], b[y := x])
  {
  }

  /** Deleting a key of `f` and its counterpart from `b` keeps the invariant. */
  lemma DeleteKeepsBijective<A, B>(f: map<A, B>, b: map<B, A>, x: A)
    requires Bijective(f, b)
    requires x in f
    ensures Bijective(f - {x}, b - {f[x]})
  {
  }

  /** The two directions hold the same number of pairs. */
  lemma {:induction false} SameSize<A, B>(f: map<A, B>, b: map<B, A>)
    requires Bijective(f, b)
    ensures |f| == |b|
    decreases |f|
  {
    if |f| == 0 {
      assert b.Keys == {} by {
        forall y | y in b ensures b[y] in f {
        }
      }
    } else {
      var x :| x in f;
      var y := f[x];
      DeleteKeepsBijective(f, b, x);
      SameSize(f - {x}, b - {y});
      assert (f - {x}).Keys == f.Keys - {x};
      assert (b - {y}).Keys == b.Keys - {y};
    }
  }
}
