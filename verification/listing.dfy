/**
 * Both listing endpoints walk their input once, in order, and append at most one
 * output per input element. `FilterMap` is that shape as a specification function;
 * `Kept` names the input positions that produced an output.
 */
module Listing {
  import opened Wrappers

  /** The outputs `f` produces for the elements of `s`, in order; `None` contributes nothing. */
  function FilterMap<A, B>(f: A -> Option<B>, s: seq<A>): (r: seq<B>)
    ensures |r| <= |s|
  {
    if s == [] then []
    else
      var init := FilterMap(f, s[..|s| - 1]);
      match f(s[|s| - 1])
      case Some(b) => init + [b]
      case None => init
  }

  /** The positions of `s` at which `f` produces an output, in increasing order. */
  function Kept<A, B>(f: A -> Option<B>, s: seq<A>): (kept: seq<nat>)
    ensures |kept| == |FilterMap(f, s)|
    ensures forall k :: 0 <= k < |kept| ==> kept[k] < |s|
  {
    if s == [] then []
    else Kept(f, s[..|s| - 1]) + if f(s[|s| - 1]).Some? then [|s| - 1] else []
  }

  /** The k-th output is what the input at the k-th kept position yields. */
  lemma {:induction false} KeptYields<A, B>(f: A -> Option<B>, s: seq<A>)
    ensures forall k :: 0 <= k < |Kept(f, s)| ==> f(s[Kept(f, s)[k]]) == Some(FilterMap(f, s)[k])
  {
    if s != [] {
      var n := |s| - 1;
      var init := s[..n];
      KeptYields(f, init);
      var kept0 := Kept(f, init);
      assert forall k :: 0 <= k < |kept0| ==> s[kept0[k]] == init[kept0[k]];
    }
  }

  /** Kept positions strictly increase, so outputs keep the input order. */
  lemma {:induction false} KeptIncreasing<A, B>(f: A -> Option<B>, s: seq<A>)
    ensures forall k, l :: 0 <= k < l < |Kept(f, s)| ==> Kept(f, s)[k] < Kept(f, s)[l]
  {
    if s != [] {
      KeptIncreasing(f, s[..|s| - 1]);
    }
  }

  /** Every position at which `f` produces an output is kept. */
  lemma {:induction false} KeptComplete<A, B>(f: A -> Option<B>, s: seq<A>)
    ensures forall i :: 0 <= i < |s| && f(s[i]).Some? ==> i in Kept(f, s)
  {
    if s != [] {
      var n := |s| - 1;
      var init := s[..n];
      KeptComplete(f, init);
      var kept0 := Kept(f, init);
      assert Kept(f, s) == kept0 + if f(s[n]).Some? then [n] else [];
      forall i | 0 <= i < n && f(s[i]).Some? ensures i in Kept(f, s) {
        assert s[i] == init[i];
        assert i in kept0;
      }
    }
  }

  /**
   * `FilterMap` keeps exactly the producing positions, in their original order:
   * the k-th output is what the k-th producing position yields, the positions strictly
   * increase, and every position that produces something is among them.
   */
  lemma FilterMapKept<A, B>(f: A -> Option<B>, s: seq<A>)
    ensures |Kept(f, s)| == |FilterMap(f, s)|
    ensures forall k :: 0 <= k < |Kept(f, s)| ==>
      Kept(f, s)[k] < |s| && f(s[Kept(f, s)[k]]) == Some(FilterMap(f, s)[k])
    ensures forall k, l :: 0 <= k < l < |Kept(f, s)| ==> Kept(f, s)[k] < Kept(f, s)[l]
    ensures forall i :: 0 <= i < |s| && f(s[i]).Some? ==> i in Kept(f, s)
  {
    KeptYields(f, s);
    KeptIncreasing(f, s);
    KeptComplete(f, s);
  }

  /** An output appears exactly when some element of the input produces it. */
  lemma FilterMapMember<A, B>(f: A -> Option<B>, s: seq<A>, b: B)
    ensures b in FilterMap(f, s) <==> exists i :: 0 <= i < |s| && f(s[i]) == Some(b)
  {
    FilterMapKept(f, s);
    var r, kept := FilterMap(f, s), Kept(f, s);
    if b in r {
      var k :| 0 <= k < |r| && r[k] == b;
      assert f(s[kept[k]]) == Some(b);
    }
    if i :| 0 <= i < |s| && f(s[i]) == Some(b) {
      var k :| 0 <= k < |kept| && kept[k] == i;
      assert r[k] == b;
    }
  }
}
