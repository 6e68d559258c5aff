/** Sequence helpers shared by the list comprehensions of the model. */
module Seqs {

  /** Concatenation of a list of lists, as `bibfiles.extend(...)` in a loop builds it. */
  function Flatten<T>(ss: seq<seq<T>>): (r: seq<T>)
    ensures ss == [] ==> r == []
  {
    if ss == [] then [] else ss[0] + Flatten(ss[1..])
  }

  lemma {:induction false} FlattenConcat<T>(a: seq<seq<T>>, b: seq<seq<T>>)
    ensures Flatten(a + b) == Flatten(a) + Flatten(b)
  {
    if a == [] {
      assert a + b == b;
    } else {
      assert (a + b)[1..] == a[1..] + b;
      FlattenConcat(a[1..], b);
    }
  }

  lemma {:induction false} FlattenMember<T>(ss: seq<seq<T>>, x: T)
    ensures x in Flatten(ss) <==> exists i :: 0 <= i < |ss| && x in ss[i]
  {
    if ss != [] {
      FlattenMember(ss[1..], x);
      if x in Flatten(ss[1..]) {
        var i :| 0 <= i < |ss[1..]| && x in ss[1..][i];
        assert x in ss[i + 1];
      }
      forall i | 0 <= i < |ss| && x in ss[i] && i > 0
        ensures exists j :: 0 <= j < |ss[1..]| && x in ss[1..][j]
      {
        assert x in ss[1..][i - 1];
      }
    }
  }

  lemma {:induction false} FlattenLength<T>(ss: seq<seq<T>>, n: nat)
    requires forall i :: 0 <= i < |ss| ==> |ss[i]| <= n
    ensures |Flatten(ss)| <= n * |ss|
  {
    if ss != [] {
      FlattenLength(ss[1..], n);
    }
  }

  /** `[f(x) for x in s if keep(x)]`: the matching elements, mapped, in their original order. */
  function FilterMap<A, B>(s: seq<A>, keep: A -> bool, f: A -> B): (r: seq<B>)
    ensures |r| <= |s|
  {
    if s == [] then []
    else if keep(s[0]) then [f(s[0])] + FilterMap(s[1..], keep, f)
    else FilterMap(s[1..], keep, f)
  }

  /** A comprehension over a concatenation is the concatenation of the comprehensions:
      together with the one-element case this fixes the order of the result. */
  lemma {:induction false} FilterMapConcat<A, B>(s: seq<A>, t: seq<A>, keep: A -> bool, f: A -> B)
    ensures FilterMap(s + t, keep, f) == FilterMap(s, keep, f) + FilterMap(t, keep, f)
  {
    if s == [] {
      assert s + t == t;
    } else {
      assert (s + t)[1..] == s[1..] + t;
      FilterMapConcat(s[1..], t, keep, f);
    }
  }

  lemma {:induction false} FilterMapMember<A, B>(s: seq<A>, keep: A -> bool, f: A -> B, y: B)
    ensures y in FilterMap(s, keep, f) <==> exists i :: 0 <= i < |s| && keep(s[i]) && y == f(s[i])
  {
    if s != [] {
      FilterMapMember(s[1..], keep, f, y);
      if y in FilterMap(s[1..], keep, f) {
        var i :| 0 <= i < |s[1..]| && keep(s[1..][i]) && y == f(s[1..][i]);
        assert keep(s[i + 1]) && y == f(s[i + 1]);
      }
      forall i | 0 <= i < |s| && keep(s[i]) && y == f(s[i]) && i > 0
        ensures exists j :: 0 <= j < |s[1..]| && keep(s[1..][j]) && y == f(s[1..][j])
      {
        assert s[1..][i - 1] == s[i];
      }
    }
  }

  /** Keeping every element keeps the length; keeping none gives the empty list. */
  lemma {:induction false} FilterMapAll<A, B>(s: seq<A>, keep: A -> bool, f: A -> B)
    requires forall i :: 0 <= i < |s| ==> keep(s[i])
    ensures |FilterMap(s, keep, f)| == |s|
    ensures forall i :: 0 <= i < |s| ==> FilterMap(s, keep, f)[i] == f(s[i])
  {
    if s != [] {
      FilterMapAll(s[1..], keep, f);
    }
  }

  lemma {:induction false} FilterMapNone<A, B>(s: seq<A>, keep: A -> bool, f: A -> B)
    requires forall i :: 0 <= i < |s| ==> !keep(s[i])
    ensures FilterMap(s, keep, f) == []
  {
    if s != [] {
      FilterMapNone(s[1..], keep, f);
    }
  }
}
