/** Flattening a sequence through a function, and the facts about it the
    counting proofs use. */
module Seqs {

  /** The concatenation of `f(x)` over the elements `x` of `s`, in order. */
  function FlatMap<T, U>(s: seq<T>, f: T -> seq<U>): seq<U> {
    if s == [] then [] else f(s[0]) + FlatMap(s[1..], f)
  }

  lemma {:induction false} FlatMapAppend<T, U>(a: seq<T>, b: seq<T>, f: T -> seq<U>)
    ensures FlatMap(a + b, f) == FlatMap(a, f) + FlatMap(b, f)
    decreases |a|
  {
    if a == [] {
      assert a + b == b;
    } else {
      assert (a + b)[1..] == a[1..] + b;
      FlatMapAppend(a[1..], b, f);
    }
  }

  /** Flattening through a function that never gives more elements than
      another gives no more elements in all. */
  lemma {:induction false} FlatMapShorter<T, U, V>(s: seq<T>, f: T -> seq<U>, g: T -> seq<V>)
    requires forall i :: 0 <= i < |s| ==> |f(s[i])| <= |g(s[i])|
    ensures |FlatMap(s, f)| <= |FlatMap(s, g)|
    decreases |s|
  {
    if s != [] {
      assert |f(s[0])| <= |g(s[0])|;
      FlatMapShorter(s[1..], f, g);
    }
  }

  /** Taking one element out of a sequence takes it out of its multiset. */
  lemma RemoveAt<T>(s: seq<T>, k: nat)
    requires k < |s|
    ensures multiset(s[..k] + s[k + 1..]) == multiset(s) - multiset{s[k]}
  {
    assert s == s[..k] + [s[k]] + s[k + 1..];
  }

  /** Where an element of the multiset sits in the sequence. */
  lemma IndexOf<T>(s: seq<T>, x: T) returns (k: nat)
    requires x in multiset(s)
    ensures k < |s| && s[k] == x
  {
    assert x in s;
    k :| 0 <= k < |s| && s[k] == x;
  }

  /** Flattening the element at `k` separately. */
  lemma FlatMapAt<T, U>(s: seq<T>, k: nat, f: T -> seq<U>)
    requires k < |s|
    ensures multiset(FlatMap(s, f)) == multiset(FlatMap(s[..k] + s[k + 1..], f)) + multiset(f(s[k]))
  {
    var before, after := s[..k], s[k + 1..];
    assert s == before + ([s[k]] + after);
    FlatMapAppend(before, [s[k]] + after, f);
    assert ([s[k]] + after)[1..] == after;
    FlatMapAppend(before, after, f);
  }

  /** The elements produced do not depend on the order of the input. */
  lemma {:induction false} FlatMapPermutation<T, U>(s: seq<T>, s': seq<T>, f: T -> seq<U>)
    requires multiset(s) == multiset(s')
    ensures multiset(FlatMap(s, f)) == multiset(FlatMap(s', f))
    decreases |s|
  {
    if s == [] {
      assert |s'| == |multiset(s')| == 0;
    } else {
      var x := s[0];
      var k := IndexOf(s', x);
      var rest, rest' := s[1..], s'[..k] + s'[k + 1..];
      PermutationTail(s, s', k);
      FlatMapPermutation(rest, rest', f);
      FlatMapAt(s', k, f);
      FlatMapHead(s, f);
    }
  }

  /** Removing the head of one sequence and the same element from a
      permutation of it leaves permutations of each other. */
  lemma PermutationTail<T>(s: seq<T>, s': seq<T>, k: nat)
    requires multiset(s) == multiset(s') && s != [] && k < |s'| && s'[k] == s[0]
    ensures multiset(s[1..]) == multiset(s'[..k] + s'[k + 1..])
  {
    RemoveAt(s, 0);
    RemoveAt(s', k);
    assert s[..0] + s[1..] == s[1..];
  }

  /** The multiset form of unfolding `FlatMap` once. */
  lemma FlatMapHead<T, U>(s: seq<T>, f: T -> seq<U>)
    requires s != []
    ensures multiset(FlatMap(s, f)) == multiset(f(s[0])) + multiset(FlatMap(s[1..], f))
  {
  }
}
