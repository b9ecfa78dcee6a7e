/** `xs.map(f).filter(Boolean)` for a callback that returns a record or
    nothing, and the facts about it that do not depend on the callback. */
module Seqs {

  import opened Wrappers

  /** The values `f` gives for the elements of `xs`, in order, without the
      elements for which it gives nothing. */
  function FilterMap<A, B>(f: A -> Option<B>, xs: seq<A>): (r: seq<B>)
    ensures |r| <= |xs|
    decreases |xs|
  {
    if xs == [] then []
    else
      var rest := FilterMap(f, xs[1..]);
      match f(xs[0])
      case Some(y) => [y] + rest
      case None => rest
  }

  /** A value is in the result exactly when some element gives it, and the
      result is empty exactly when no element gives anything. */
  lemma {:induction false} FilterMapMembers<A, B>(f: A -> Option<B>, xs: seq<A>)
    ensures forall y :: y in FilterMap(f, xs) <==> exists x :: x in xs && f(x) == Some(y)
    ensures FilterMap(f, xs) == [] <==> forall x :: x in xs ==> f(x).None?
    decreases |xs|
  {
    if xs != [] {
      FilterMapMembers(f, xs[1..]);
      assert forall x :: x in xs <==> x == xs[0] || x in xs[1..];
    }
  }

  lemma {:induction false} FilterMapAppend<A, B>(f: A -> Option<B>, a: seq<A>, b: seq<A>)
    ensures FilterMap(f, a + b) == FilterMap(f, a) + FilterMap(f, b)
    decreases |a|
  {
    if a != [] {
      assert (a + b)[1..] == a[1..] + b;
      FilterMapAppend(f, a[1..], b);
    } else {
      assert a + b == b;
    }
  }

  /** The i-th result comes from the element at some position k, and
      exactly i results come from the elements before k. */
  lemma {:induction false} FilterMapOrigin<A, B>(f: A -> Option<B>, xs: seq<A>, i: nat)
    requires i < |FilterMap(f, xs)|
    ensures exists k :: 0 <= k < |xs| && f(xs[k]) == Some(FilterMap(f, xs)[i])
                        && |FilterMap(f, xs[..k])| == i
    decreases |xs|
  {
    var r := FilterMap(f, xs);
    var rest := FilterMap(f, xs[1..]);
    assert xs[..0] == [];
    if f(xs[0]).Some? && i == 0 {
      assert f(xs[0]) == Some(r[0]);
    } else {
      var j := if f(xs[0]).Some? then i - 1 else i;
      assert r[i] == rest[j];
      FilterMapOrigin(f, xs[1..], j);
      var k :| 0 <= k < |xs[1..]| && f(xs[1..][k]) == Some(rest[j])
               && |FilterMap(f, xs[1..][..k])| == j;
      assert xs[..k + 1] == [xs[0]] + xs[1..][..k];
      FilterMapAppend(f, [xs[0]], xs[1..][..k]);
      assert xs[k + 1] == xs[1..][k];
    }
  }
}
