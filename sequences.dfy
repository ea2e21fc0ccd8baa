/**
 * The two array methods the layout engine relies on, on sequences:
 * `Array.prototype.filter` (order-preserving selection) and the
 * concatenation of a list of columns.
 */
module Seqs {

  /** `s.filter(p)`: the elements satisfying `p`, in their original order. */
  function Filter<T>(s: seq<T>, p: T -> bool): (r: seq<T>)
    ensures |r| <= |s|
    ensures forall i :: 0 <= i < |r| ==> p(r[i])
    ensures multiset(r) <= multiset(s)
  {
    if s == [] then []
    else
      assert s == [s[0]] + s[1..];
      (if p(s[0]) then [s[0]] else []) + Filter(s[1..], p)
  }

  /** Filtering distributes over concatenation: it keeps the relative order. */
  lemma {:induction false} FilterConcat<T>(a: seq<T>, b: seq<T>, p: T -> bool)
    ensures Filter(a + b, p) == Filter(a, p) + Filter(b, p)
  {
    if a != [] {
      assert (a + b)[1..] == a[1..] + b;
      FilterConcat(a[1..], b, p);
    } else {
      assert a + b == b;
    }
  }

  /** Two complementary filters share out the elements between them. */
  lemma {:induction false} FilterComplement<T>(s: seq<T>, p: T -> bool, q: T -> bool)
    requires forall i :: 0 <= i < |s| ==> q(s[i]) == !p(s[i])
    ensures multiset(Filter(s, p)) + multiset(Filter(s, q)) == multiset(s)
  {
    if s != [] {
      assert s == [s[0]] + s[1..];
      FilterComplement(s[1..], p, q);
    }
  }

  /** Exactly the elements of `s` that satisfy `p` survive. */
  lemma {:induction false} FilterMembers<T>(s: seq<T>, p: T -> bool, x: T)
    ensures x in Filter(s, p) <==> x in s && p(x)
  {
    if s != [] {
      FilterMembers(s[1..], p, x);
      assert x in s <==> x == s[0] || x in s[1..];
    }
  }

  /** All columns placed one after another. */
  function Flatten<T>(cols: seq<seq<T>>): seq<T> {
    if cols == [] then [] else cols[0] + Flatten(cols[1..])
  }

  lemma {:induction false} FlattenAppend<T>(cols: seq<seq<T>>, c: seq<T>)
    ensures Flatten(cols + [c]) == Flatten(cols) + c
  {
    if cols != [] {
      assert (cols + [c])[1..] == cols[1..] + [c];
      FlattenAppend(cols[1..], c);
    }
  }

  /** Appending `x` to one column adds exactly one `x` to the flattened contents. */
  lemma {:induction false} FlattenPushInto<T>(cols: seq<seq<T>>, k: nat, x: T)
    requires k < |cols|
    ensures multiset(Flatten(cols[k := cols[k] + [x]])) == multiset(Flatten(cols)) + multiset{x}
  {
    if k == 0 {
      assert cols[k := cols[k] + [x]][1..] == cols[1..];
    } else {
      assert cols[k := cols[k] + [x]][1..] == cols[1..][k - 1 := cols[k] + [x]];
      FlattenPushInto(cols[1..], k - 1, x);
    }
  }
}
