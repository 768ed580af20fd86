/** Counting, filtering and mapping over sequences, and what a permutation leaves unchanged. */
module Counting {

  function Count<T>(s: seq<T>, p: T -> bool): nat {
    if s == [] then 0 else Count(s[..|s| - 1], p) + if p(s[|s| - 1]) then 1 else 0
  }

  function Filter<T>(s: seq<T>, p: T -> bool): seq<T> {
    if s == [] then [] else Filter(s[..|s| - 1], p) + if p(s[|s| - 1]) then [s[|s| - 1]] else []
  }

  function Map<T, U>(s: seq<T>, f: T -> U): (r: seq<U>) {
    seq(|s|, i requires 0 <= i < |s| => f(s[i]))
  }

  lemma MapAppend<T, U>(s: seq<T>, x: T, f: T -> U)
    ensures Map(s + [x], f) == Map(s, f) + [f(x)]
  {
  }

  lemma {:induction false} CountConcat<T>(s: seq<T>, t: seq<T>, p: T -> bool)
    ensures Count(s + t, p) == Count(s, p) + Count(t, p)
  {
    if t == [] {
      assert s + t == s;
    } else {
      assert (s + t)[..|s + t| - 1] == s + t[..|t| - 1];
      CountConcat(s, t[..|t| - 1], p);
    }
  }

  lemma CountStep<T>(s: seq<T>, i: nat, p: T -> bool)
    requires i < |s|
    ensures Count(s[..i + 1], p) == Count(s[..i], p) + if p(s[i]) then 1 else 0
  {
    assert s[..i + 1][..i] == s[..i];
  }

  lemma CountSplit<T>(s: seq<T>, i: nat, p: T -> bool)
    requires i <= |s|
    ensures Count(s, p) == Count(s[..i], p) + Count(s[i..], p)
  {
    hide Count;
    assert s[..i] + s[i..] == s;
    CountConcat(s[..i], s[i..], p);
  }

  lemma {:induction false} CountNone<T>(s: seq<T>, p: T -> bool)
    requires forall i :: 0 <= i < |s| ==> !p(s[i])
    ensures Count(s, p) == 0
  {
    if s != [] { CountNone(s[..|s| - 1], p); }
  }

  lemma {:induction false} CountSome<T>(s: seq<T>, p: T -> bool, i: nat)
    requires i < |s| && p(s[i])
    ensures Count(s, p) > 0
  {
    if i < |s| - 1 { CountSome(s[..|s| - 1], p, i); }
  }

  lemma {:induction false} CountWitness<T>(s: seq<T>, p: T -> bool) returns (i: nat)
    requires Count(s, p) > 0
    ensures i < |s| && p(s[i])
  {
    if p(s[|s| - 1]) { i := |s| - 1; } else { i := CountWitness(s[..|s| - 1], p); }
  }

  /** A pointwise implication between two predicates orders their counts. */
  lemma {:induction false} CountMono<T>(s: seq<T>, p: T -> bool, q: T -> bool)
    requires forall i :: 0 <= i < |s| && p(s[i]) ==> q(s[i])
    ensures Count(s, p) <= Count(s, q)
  {
    if s != [] { CountMono(s[..|s| - 1], p, q); }
  }

  /** A proper implication orders them strictly. */
  lemma CountMonoStrict<T>(s: seq<T>, p: T -> bool, q: T -> bool, i: nat)
    requires forall j :: 0 <= j < |s| && p(s[j]) ==> q(s[j])
    requires i < |s| && q(s[i]) && !p(s[i])
    ensures Count(s, p) < Count(s, q)
  {
    CountSplit(s, i, p);
    CountSplit(s, i, q);
    CountMono(s[..i], p, q);
    var t := s[i..];
    CountSplit(t, 1, p);
    CountSplit(t, 1, q);
    CountMono(t[1..], p, q);
    CountStep(t, 0, p);
    CountStep(t, 0, q);
  }

  lemma CountSame<T>(s: seq<T>, p: T -> bool, q: T -> bool)
    requires forall i :: 0 <= i < |s| ==> p(s[i]) == q(s[i])
    ensures Count(s, p) == Count(s, q)
  {
    CountMono(s, p, q);
    CountMono(s, q, p);
  }

  /** If the suffix has no element that satisfies p, the prefix counts for the whole. */
  lemma CountPrefix<T>(s: seq<T>, i: nat, p: T -> bool)
    requires i <= |s|
    requires forall j :: i <= j < |s| ==> !p(s[j])
    ensures Count(s[..i], p) == Count(s, p)
  {
    CountSplit(s, i, p);
    CountNone(s[i..], p);
  }

  lemma {:induction false} CountPerm<T>(s: seq<T>, t: seq<T>, p: T -> bool)
    requires multiset(s) == multiset(t)
    ensures Count(s, p) == Count(t, p)
  {
    if s == [] {
      assert |t| == |multiset(t)| == 0;
    } else {
      var x, j, t' := RemoveLast(s, t);
      CountPerm(s[..|s| - 1], t', p);
      CountConcat(t[..j], t[j + 1..], p);
      CountSplit(t, j, p);
      CountSplit(t[j..], 1, p);
      assert t[j..][..1] == [x] && t[j..][1..] == t[j + 1..];
      assert Count([x], p) == if p(x) then 1 else 0 by { assert [x][..0] == []; }
    }
  }

  lemma OneLess<T>(s: seq<T>, i: nat)
    requires i < |s|
    ensures multiset(s[..i] + s[i + 1..]) == multiset(s) - multiset{s[i]}
    ensures forall x :: x in s[..i] + s[i + 1..] ==> x in s
  {
    assert s == s[..i] + [s[i]] + s[i + 1..];
  }

  lemma RemoveLast<T>(s: seq<T>, t: seq<T>) returns (x: T, j: nat, t': seq<T>)
    requires s != [] && multiset(s) == multiset(t)
    ensures j < |t| && t[j] == x == s[|s| - 1] && t' == t[..j] + t[j + 1..]
    ensures multiset(s[..|s| - 1]) == multiset(t')
  {
    x := s[|s| - 1];
    OneLess(s, |s| - 1);
    assert s[..|s| - 1] + s[|s|..] == s[..|s| - 1];
    assert x in multiset(t);
    j :| 0 <= j < |t| && t[j] == x;
    OneLess(t, j);
    t' := t[..j] + t[j + 1..];
  }

  lemma {:induction false} FilterConcat<T>(s: seq<T>, t: seq<T>, p: T -> bool)
    ensures Filter(s + t, p) == Filter(s, p) + Filter(t, p)
  {
    if t == [] {
      assert s + t == s;
    } else {
      assert (s + t)[..|s + t| - 1] == s + t[..|t| - 1];
      FilterConcat(s, t[..|t| - 1], p);
    }
  }

  lemma {:induction false} FilterPerm<T>(s: seq<T>, t: seq<T>, p: T -> bool)
    requires multiset(s) == multiset(t)
    ensures multiset(Filter(s, p)) == multiset(Filter(t, p))
  {
    if s == [] {
      assert |t| == |multiset(t)| == 0;
    } else {
      var x, j, t' := RemoveLast(s, t);
      FilterPerm(s[..|s| - 1], t', p);
      var a, b, fx := Filter(t[..j], p), Filter(t[j + 1..], p), if p(x) then [x] else [];
      assert Filter(t', p) == a + b by { FilterConcat(t[..j], t[j + 1..], p); }
      assert Filter(t, p) == a + fx + b by {
        assert t == t[..j] + [x] + t[j + 1..];
        FilterConcat(t[..j], [x], p);
        FilterConcat(t[..j] + [x], t[j + 1..], p);
        assert Filter([x], p) == fx by { assert [x][..0] == []; }
      }
      MultisetMiddle(a, fx, b);
    }
  }

  lemma MultisetMiddle<T>(a: seq<T>, x: seq<T>, b: seq<T>)
    ensures multiset(a + x + b) == multiset(a + b) + multiset(x)
  {
  }

  lemma {:induction false} FilterPrefix<T>(s: seq<T>, i: nat, p: T -> bool)
    requires i <= |s|
    ensures multiset(Filter(s[..i], p)) <= multiset(Filter(s, p))
  {
    FilterConcat(s[..i], s[i..], p);
    assert s[..i] + s[i..] == s;
  }

  lemma {:induction false} FilterLength<T>(s: seq<T>, p: T -> bool)
    ensures |Filter(s, p)| == Count(s, p)
  {
    if s != [] { FilterLength(s[..|s| - 1], p); }
  }

  lemma {:induction false} MapPerm<T, U>(s: seq<T>, t: seq<T>, f: T -> U)
    requires multiset(s) == multiset(t)
    ensures multiset(Map(s, f)) == multiset(Map(t, f))
  {
    if s == [] {
      assert |t| == |multiset(t)| == 0;
    } else {
      var x, j, t' := RemoveLast(s, t);
      MapPerm(s[..|s| - 1], t', f);
      assert Map(s, f) == Map(s[..|s| - 1], f) + [f(x)];
      assert Map(t, f) == Map(t[..j], f) + [f(x)] + Map(t[j + 1..], f);
      assert Map(t', f) == Map(t[..j], f) + Map(t[j + 1..], f);
    }
  }

  /** A sub-multiset of the same size is the whole. */
  lemma SubmultisetOfSameSize<T>(a: seq<T>, b: seq<T>)
    requires multiset(a) <= multiset(b) && |a| == |b|
    ensures multiset(a) == multiset(b)
  {
    var rest := multiset(b) - multiset(a);
    assert multiset(b) == multiset(a) + rest;
    assert |rest| == 0;
  }

  lemma {:induction false} SeqOfMultiset<T>(m: multiset<T>) returns (s: seq<T>)
    ensures multiset(s) == m
    decreases |m|
  {
    if m == multiset{} {
      s := [];
    } else {
      var x :| x in m;
      var t := SeqOfMultiset(m - multiset{x});
      s := t + [x];
    }
  }

  /** A sub-multiset counts at most as much. */
  lemma CountSubmultiset<T>(a: seq<T>, b: seq<T>, p: T -> bool)
    requires multiset(a) <= multiset(b)
    ensures Count(a, p) <= Count(b, p) && |a| <= |b|
  {
    var rest := SeqOfMultiset(multiset(b) - multiset(a));
    assert multiset(a + rest) == multiset(b);
    CountPerm(a + rest, b, p);
    CountConcat(a, rest, p);
    assert |multiset(a + rest)| == |multiset(b)|;
  }
}
