/** Generic operations on sequences that the string model is built from. */
module Sequences {

  /** `s` without its longest prefix of elements satisfying `p`. */
  function DropWhile<T>(p: T -> bool, s: seq<T>): (r: seq<T>)
    ensures |r| <= |s| && r == s[|s| - |r|..]
    ensures forall i :: 0 <= i < |s| - |r| ==> p(s[i])
    ensures r == [] || !p(r[0])
    decreases |s|
  {
    if s != [] && p(s[0]) then DropWhile(p, s[1..]) else s
  }

  /** `s` without its longest suffix of elements satisfying `p`. */
  function DropLastWhile<T>(p: T -> bool, s: seq<T>): (r: seq<T>)
    ensures |r| <= |s| && r == s[..|r|]
    ensures forall i :: |r| <= i < |s| ==> p(s[i])
    ensures r == [] || !p(r[|r| - 1])
    decreases |s|
  {
    if s != [] && p(s[|s| - 1]) then DropLastWhile(p, s[..|s| - 1]) else s
  }

  /** Dropping a prefix of elements that all satisfy `p` first does not change `DropWhile`. */
  lemma {:induction false} DropWhileAfterPrefix<T>(p: T -> bool, a: seq<T>, s: seq<T>)
    requires forall i :: 0 <= i < |a| ==> p(a[i])
    ensures DropWhile(p, a + s) == DropWhile(p, s)
    decreases |a|
  {
    if a != [] {
      assert (a + s)[0] == a[0] && (a + s)[1..] == a[1..] + s;
      DropWhileAfterPrefix(p, a[1..], s);
    } else {
      assert a + s == s;
    }
  }

  /** The concatenation of all the elements of `xs`. */
  function Flatten<T>(xs: seq<seq<T>>): seq<T>
  {
    if xs == [] then [] else xs[0] + Flatten(xs[1..])
  }

  /** The elements of `xs` with `sep` between each two neighbours. */
  function Join<T>(sep: T, xs: seq<seq<T>>): seq<T>
  {
    if xs == [] then []
    else if |xs| == 1 then xs[0]
    else xs[0] + [sep] + Join(sep, xs[1..])
  }

  /** Concatenation is associative. */
  lemma AppendAssoc<T>(a: seq<T>, b: seq<T>, c: seq<T>)
    ensures (a + b) + c == a + (b + c)
  {
  }

  /** Flattening a sequence with one more element in front. */
  lemma FlattenCons<T>(x: seq<T>, xs: seq<seq<T>>)
    ensures Flatten([x] + xs) == x + Flatten(xs)
  {
    assert ([x] + xs)[1..] == xs;
  }

  /** Joining a sequence of at least two elements. */
  lemma JoinCons<T>(sep: T, x: seq<T>, xs: seq<seq<T>>)
    requires xs != []
    ensures Join(sep, [x] + xs) == x + [sep] + Join(sep, xs)
  {
    assert ([x] + xs)[1..] == xs;
  }

  /** Joining after prefixing the first part with the head of `s` restores `s` when the parts already join to its tail. */
  lemma JoinPrepend<T>(sep: T, s: seq<T>, xs: seq<seq<T>>)
    requires s != [] && xs != [] && Join(sep, xs) == s[1..]
    ensures Join(sep, [[s[0]] + xs[0]] + xs[1..]) == s
  {
    var ys := [[s[0]] + xs[0]] + xs[1..];
    if |xs| == 1 {
      assert ys == [[s[0]] + xs[0]];
    } else {
      assert ys[1..] == xs[1..];
      AppendAssoc([s[0]], xs[0], [sep]);
      AppendAssoc([s[0]], xs[0] + [sep], Join(sep, xs[1..]));
    }
    assert [s[0]] + s[1..] == s;
  }

  /** Prefixing `a` to the first part of `[w] + rest` gives the parts `[[a] + w] + rest`. */
  lemma PrependFirst<T>(a: T, xs: seq<seq<T>>, w: seq<T>, rest: seq<seq<T>>)
    requires xs == [w] + rest
    ensures [[a] + xs[0]] + xs[1..] == [[a] + w] + rest
  {
    assert xs[1..] == rest;
  }

  /** The elements of `s` that do not satisfy `p`, in order. */
  function Remove<T>(p: T -> bool, s: seq<T>): (r: seq<T>)
    ensures |r| <= |s|
    ensures forall i :: 0 <= i < |r| ==> !p(r[i])
  {
    if s == [] then [] else (if p(s[0]) then [] else [s[0]]) + Remove(p, s[1..])
  }

  /** Removing a prefix whose elements all satisfy `p` does not change what `Remove` keeps. */
  lemma {:induction false} RemoveDropWhile<T>(p: T -> bool, s: seq<T>)
    ensures Remove(p, DropWhile(p, s)) == Remove(p, s)
    decreases |s|
  {
    if s != [] && p(s[0]) {
      RemoveDropWhile(p, s[1..]);
    }
  }
}
