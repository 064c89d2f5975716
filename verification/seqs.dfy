/** Small facts about sequences, stated once for every element type. */
module Seqs {

  /** A non-empty prefix is the shorter prefix followed by its last element. */
  lemma PrefixSnoc<T>(s: seq<T>, n: nat)
    requires 0 < n <= |s|
    ensures s[..n] == s[..n - 1] + [s[n - 1]]
  {
  }

  /** Adjacent slices join up. */
  lemma SliceJoin<T>(s: seq<T>, a: nat, b: nat, c: nat)
    requires a <= b <= c <= |s|
    ensures s[a..b] + s[b..c] == s[a..c]
  {
  }

  /** Inserting `x` right after the middle part `m` of `s == a + m + b` gives `r`. */
  lemma SpliceSnoc<T>(r: seq<T>, s: seq<T>, a: seq<T>, m: seq<T>, b: seq<T>, x: T)
    requires s == a + m + b && r == s[..|a| + |m|] + [x] + s[|a| + |m|..]
    ensures r == a + (m + [x]) + b
  {
    assert s[..|a| + |m|] == a + m;
    assert s[|a| + |m|..] == b;
  }

  /** A sequence is its part before `k`, its element at `k` and its part after `k`. */
  lemma Split3<T>(s: seq<T>, k: nat)
    requires k < |s|
    ensures s == s[..k] + ([s[k]] + s[k + 1..])
  {
  }

  /** The parts of `a + ([x] + b)` on either side of `x`. */
  lemma Around<T>(a: seq<T>, x: T, b: seq<T>)
    ensures (a + ([x] + b))[..|a|] == a && (a + ([x] + b))[|a| + 1..] == b
  {
    assert (a + ([x] + b))[..|a|] == a;
    assert (a + ([x] + b))[|a| + 1..] == b;
  }

  /** A non-empty suffix is its first element followed by the rest. */
  lemma Unfold<T>(s: seq<T>, i: nat)
    requires i < |s|
    ensures s[i..] == [s[i]] + s[i + 1..]
  {
  }

  /** Replacing the element right after `a` in `a + ([x] + b)`. */
  lemma UpdateAround<T>(a: seq<T>, x: T, b: seq<T>, y: T)
    ensures (a + ([x] + b))[|a| := y] == a + [y] + b
  {
  }

  /** Taking `m + 1` elements is taking the first one and then `m` of the rest. */
  lemma TakeCons<T>(s: seq<T>, m: nat)
    requires m < |s|
    ensures s[..m + 1] == [s[0]] + s[1..][..m]
  {
  }

  /** The part of a prefix after position `k` is a prefix of the part after `k`. */
  lemma TakeDrop<T>(s: seq<T>, k: nat, c: nat)
    requires k + c <= |s|
    ensures s[..k + c][k..] == s[k..][..c]
  {
  }

  /** A non-empty sequence is its first element followed by the rest. */
  lemma HeadTail<T>(s: seq<T>)
    requires s != []
    ensures s == [s[0]] + s[1..]
  {
  }

  /** Concatenation is associative. */
  lemma AppendAssoc<T>(a: seq<T>, b: seq<T>, c: seq<T>)
    ensures a + (b + c) == (a + b) + c
  {
  }

  lemma AppendNil<T>(a: seq<T>)
    ensures a + [] == a
  {
  }

  /** Dropping `a` elements and then `b` more is dropping `a + b`. */
  lemma DropDrop<T>(s: seq<T>, a: nat, b: nat)
    requires a + b <= |s|
    ensures s[a..][b..] == s[a + b..]
  {
  }

  /** Dropping the element `x` of `a + m + ([x] + b)`. */
  lemma DropMiddle<T>(r: seq<T>, s: seq<T>, a: seq<T>, m: seq<T>, x: T, b: seq<T>)
    requires s == a + m + ([x] + b) && r == s[..|a| + |m|] + s[|a| + |m| + 1..]
    ensures r == a + m + b
  {
    assert s[..|a| + |m|] == a + m;
    assert s[|a| + |m| + 1..] == b;
  }

  /** The elements of `s` in the opposite order. */
  function Reversed<T>(s: seq<T>): (r: seq<T>)
    ensures |r| == |s|
  {
    if s == [] then [] else Reversed(s[1..]) + [s[0]]
  }

  /** The elements of the sequences of `ss`, one sequence after the other. */
  function Flatten<T>(ss: seq<seq<T>>): seq<T> {
    if ss == [] then [] else ss[0] + Flatten(ss[1..])
  }

  lemma {:induction false} FlattenAppend<T>(a: seq<seq<T>>, b: seq<seq<T>>)
    ensures Flatten(a + b) == Flatten(a) + Flatten(b)
  {
    if a == [] {
      assert a + b == b;
    } else {
      assert (a + b)[1..] == a[1..] + b;
      FlattenAppend(a[1..], b);
    }
  }
}
