/**
  Sequence operations that the engine takes from .NET's List<T> and LINQ
  (Select, Where, RemoveAll, Remove, Contains, AddRange), written once for
  any element type, with the lemmas that let a list of line objects and the
  list of their segment values be reasoned about side by side.
*/
module Seqs {

  /** `a` can be obtained from `b` by deleting elements, keeping the order. */
  ghost predicate IsSubseq<T>(a: seq<T>, b: seq<T>)
    decreases |b|
  {
    if b == [] then a == []
    else IsSubseq(a, b[1..]) || (a != [] && a[0] == b[0] && IsSubseq(a[1..], b[1..]))
  }

  lemma {:induction false} SubseqRefl<T>(a: seq<T>)
    ensures IsSubseq(a, a)
    decreases |a|
  {
    if a != [] {
      SubseqRefl(a[1..]);
    }
  }

  lemma {:induction false} SubseqTrans<T>(a: seq<T>, b: seq<T>, c: seq<T>)
    requires IsSubseq(a, b) && IsSubseq(b, c)
    ensures IsSubseq(a, c)
    decreases |c|
  {
    if c == [] {
    } else if IsSubseq(b, c[1..]) {
      SubseqTrans(a, b, c[1..]);
    } else {
      assert b != [] && b[0] == c[0] && IsSubseq(b[1..], c[1..]);
      if IsSubseq(a, b[1..]) {
        SubseqTrans(a, b[1..], c[1..]);
      } else {
        assert a != [] && a[0] == b[0] && IsSubseq(a[1..], b[1..]);
        SubseqTrans(a[1..], b[1..], c[1..]);
      }
    }
  }

  /** Every element of a subsequence is an element of the whole, and it is no longer. */
  lemma {:induction false} SubseqElements<T>(a: seq<T>, b: seq<T>)
    requires IsSubseq(a, b)
    ensures |a| <= |b|
    ensures forall x :: x in a ==> x in b
    decreases |b|
  {
    if b != [] {
      if IsSubseq(a, b[1..]) {
        SubseqElements(a, b[1..]);
      } else {
        SubseqElements(a[1..], b[1..]);
        assert forall x :: x in a ==> x == a[0] || x in a[1..];
      }
    }
  }

  /** Deleting one position leaves a subsequence. */
  lemma {:induction false} SubseqDelete<T>(s: seq<T>, k: nat)
    requires k < |s|
    ensures IsSubseq(s[..k] + s[k + 1..], s)
    decreases k
  {
    if k == 0 {
      assert s[..k] + s[k + 1..] == s[1..];
      SubseqRefl(s[1..]);
    } else {
      SubseqDelete(s[1..], k - 1);
      assert (s[..k] + s[k + 1..])[1..] == s[1..][..k - 1] + s[1..][k..];
    }
  }

  /** Select: the image of `s` under `f`, element by element. */
  function Map<T, U>(s: seq<T>, f: T -> U): (r: seq<U>)
    ensures |r| == |s|
    ensures forall i :: 0 <= i < |s| ==> r[i] == f(s[i])
  {
    seq(|s|, i requires 0 <= i < |s| => f(s[i]))
  }

  lemma MapAppend<T, U>(a: seq<T>, b: seq<T>, f: T -> U)
    ensures Map(a + b, f) == Map(a, f) + Map(b, f)
  {
    assert |Map(a + b, f)| == |Map(a, f) + Map(b, f)|;
  }

  /** Where(keep), equivalently RemoveAll(not keep): the elements satisfying `keep`, in order. */
  function Filter<T(==)>(s: seq<T>, keep: T -> bool): (r: seq<T>)
    ensures |r| <= |s|
    ensures forall i :: 0 <= i < |r| ==> keep(r[i]) && r[i] in s
    ensures forall i :: 0 <= i < |s| && keep(s[i]) ==> s[i] in r
    decreases |s|
  {
    if s == [] then []
    else (if keep(s[0]) then [s[0]] else []) + Filter(s[1..], keep)
  }

  lemma {:induction false} FilterSubseq<T>(s: seq<T>, keep: T -> bool)
    ensures IsSubseq(Filter(s, keep), s)
    decreases |s|
  {
    if s != [] {
      FilterSubseq(s[1..], keep);
      if keep(s[0]) {
        assert Filter(s, keep) == [s[0]] + Filter(s[1..], keep);
        assert Filter(s, keep)[1..] == Filter(s[1..], keep);
      } else {
        assert Filter(s, keep) == Filter(s[1..], keep);
      }
    }
  }

  /** Keeping by `keep` and then by `also` is keeping by both at once. */
  lemma {:induction false} FilterFilter<T>(s: seq<T>, keep: T -> bool, also: T -> bool, both: T -> bool)
    requires forall x :: both(x) == (keep(x) && also(x))
    ensures Filter(Filter(s, keep), also) == Filter(s, both)
    decreases |s|
  {
    if s != [] {
      FilterFilter(s[1..], keep, also, both);
      if keep(s[0]) {
        assert Filter(s, keep) == [s[0]] + Filter(s[1..], keep);
        assert Filter(s, keep)[1..] == Filter(s[1..], keep);
      } else {
        assert Filter(s, keep) == Filter(s[1..], keep);
      }
    }
  }

  lemma {:induction false} FilterAppend<T>(a: seq<T>, b: seq<T>, keep: T -> bool)
    ensures Filter(a + b, keep) == Filter(a, keep) + Filter(b, keep)
    decreases |a|
  {
    if a != [] {
      assert (a + b)[1..] == a[1..] + b;
      FilterAppend(a[1..], b, keep);
    } else {
      assert a + b == b;
    }
  }

  /** Filtering the images is the image of filtering by the composed test. */
  lemma {:induction false} MapFilter<T, U>(s: seq<T>, f: T -> U, keepU: U -> bool, keepT: T -> bool)
    requires forall x :: keepT(x) == keepU(f(x))
    ensures Map(Filter(s, keepT), f) == Filter(Map(s, f), keepU)
    decreases |s|
  {
    if s != [] {
      MapFilter(s[1..], f, keepU, keepT);
      var m := Map(s, f);
      assert m != [] && m[0] == f(s[0]) && m[1..] == Map(s[1..], f);
      assert keepT(s[0]) == keepU(m[0]);
      var rest := Filter(s[1..], keepT);
      assert Filter(s, keepT) == (if keepT(s[0]) then [s[0]] else []) + rest;
      assert Filter(m, keepU) == (if keepU(m[0]) then [m[0]] else []) + Map(rest, f);
      MapAppend(if keepT(s[0]) then [s[0]] else [], rest, f);
      if keepT(s[0]) {
        assert Map([s[0]], f) == [m[0]];
      } else {
        assert Map([], f) == [];
      }
    }
  }

  /** The index of the first element that `matches`, or |s| when there is none (List.IndexOf). */
  function FirstIndex<T>(s: seq<T>, matches: T -> bool): (k: nat)
    ensures k <= |s|
    ensures k < |s| ==> matches(s[k])
    ensures forall i :: 0 <= i < k ==> !matches(s[i])
    decreases |s|
  {
    if s == [] then 0
    else if matches(s[0]) then 0
    else 1 + FirstIndex(s[1..], matches)
  }

  /** List.Remove: takes out the first element that matches; the sequence is unchanged when none does. */
  function RemoveFirst<T>(s: seq<T>, matches: T -> bool): (r: seq<T>)
    ensures var k := FirstIndex(s, matches);
            if k < |s| then r == s[..k] + s[k + 1..] else r == s
  {
    var k := FirstIndex(s, matches);
    if k < |s| then s[..k] + s[k + 1..] else s
  }

  lemma RemoveFirstSubseq<T>(s: seq<T>, matches: T -> bool)
    ensures IsSubseq(RemoveFirst(s, matches), s)
  {
    var k := FirstIndex(s, matches);
    if k < |s| {
      SubseqDelete(s, k);
    } else {
      SubseqRefl(s);
    }
  }

  lemma {:induction false} MapFirstIndex<T, U>(s: seq<T>, f: T -> U, matchU: U -> bool, matchT: T -> bool)
    requires forall x :: matchT(x) == matchU(f(x))
    ensures FirstIndex(Map(s, f), matchU) == FirstIndex(s, matchT)
    decreases |s|
  {
    if s != [] {
      assert Map(s, f)[1..] == Map(s[1..], f);
      MapFirstIndex(s[1..], f, matchU, matchT);
    }
  }

  lemma MapRemoveFirst<T, U>(s: seq<T>, f: T -> U, matchU: U -> bool, matchT: T -> bool)
    requires forall x :: matchT(x) == matchU(f(x))
    ensures Map(RemoveFirst(s, matchT), f) == RemoveFirst(Map(s, f), matchU)
  {
    MapFirstIndex(s, f, matchU, matchT);
    var k := FirstIndex(s, matchT);
    if k < |s| {
      MapAppend(s[..k], s[k + 1..], f);
      assert Map(s, f)[..k] == Map(s[..k], f);
      assert Map(s, f)[k + 1..] == Map(s[k + 1..], f);
    }
  }

  /** List.Contains under the given equality: some element `e` has eq(e, x). */
  predicate Contains<T>(s: seq<T>, x: T, eq: (T, T) -> bool) {
    exists i :: 0 <= i < |s| && eq(s[i], x)
  }

  /** No element is `eq` to a later one. */
  predicate NoEqDup<T>(s: seq<T>, eq: (T, T) -> bool) {
    forall i, j :: 0 <= i < j < |s| ==> !eq(s[i], s[j])
  }

  /**
    target.AddRange(cs.Where(c => !target.Contains(c))): List.AddRange consumes the
    lazy Where one element at a time, so each candidate is tested against the
    target as it has grown so far.
  */
  function AppendNew<T>(target: seq<T>, cs: seq<T>, eq: (T, T) -> bool): (r: seq<T>)
    ensures |target| <= |r| <= |target| + |cs|
    ensures r[..|target|] == target
    decreases |cs|
  {
    if cs == [] then target
    else AppendNew(if Contains(target, cs[0], eq) then target else target + [cs[0]], cs[1..], eq)
  }

  /** What AppendNew adds are elements of `cs`, each one not `eq` to anything before it. */
  lemma AppendNewAdds<T>(target: seq<T>, cs: seq<T>, eq: (T, T) -> bool)
    ensures var r := AppendNew(target, cs, eq);
            && (forall k :: |target| <= k < |r| ==> r[k] in cs)
            && (forall k, i :: |target| <= k < |r| && 0 <= i < k ==> !eq(r[i], r[k]))
  {
    AppendNewFrom(target, cs, eq);
    AppendNewFresh(target, cs, eq);
  }

  lemma {:induction false} AppendNewFrom<T>(target: seq<T>, cs: seq<T>, eq: (T, T) -> bool)
    ensures var r := AppendNew(target, cs, eq);
            forall k :: |target| <= k < |r| ==> r[k] in cs
    decreases |cs|
  {
    if cs != [] {
      var t := if Contains(target, cs[0], eq) then target else target + [cs[0]];
      AppendNewFrom(t, cs[1..], eq);
      var r := AppendNew(t, cs[1..], eq);
      assert forall k :: |t| <= k < |AppendNew(t, cs[1..], eq)| ==> AppendNew(t, cs[1..], eq)[k] in cs[1..];
      assert r == AppendNew(target, cs, eq);
      assert cs == [cs[0]] + cs[1..];
      forall k | |target| <= k < |r|
        ensures r[k] in cs
      {
        if k >= |t| {
          assert r[k] in cs[1..];
        } else {
          assert r[k] == r[..|t|][k] == t[k] == cs[0];
        }
      }
    }
  }

  lemma {:induction false} AppendNewFresh<T>(target: seq<T>, cs: seq<T>, eq: (T, T) -> bool)
    ensures var r := AppendNew(target, cs, eq);
            forall k, i :: |target| <= k < |r| && 0 <= i < k ==> !eq(r[i], r[k])
    decreases |cs|
  {
    if cs != [] {
      var t := if Contains(target, cs[0], eq) then target else target + [cs[0]];
      AppendNewFresh(t, cs[1..], eq);
      assert forall k, i :: |t| <= k < |AppendNew(t, cs[1..], eq)| && 0 <= i < k ==> !eq(AppendNew(t, cs[1..], eq)[i], AppendNew(t, cs[1..], eq)[k]);
      var r := AppendNew(t, cs[1..], eq);
      assert r == AppendNew(target, cs, eq);
      forall k, i | |target| <= k < |r| && 0 <= i < k
        ensures !eq(r[i], r[k])
      {
        if k < |t| {
          assert t == target + [cs[0]] && !Contains(target, cs[0], eq);
          assert r[k] == r[..|t|][k] == t[k] == cs[0];
          assert r[i] == r[..|t|][i] == target[i];
        }
      }
    }
  }

  /** AppendNew keeps a target free of `eq`-duplicates free of them. */
  lemma AppendNewNoDup<T>(target: seq<T>, cs: seq<T>, eq: (T, T) -> bool)
    requires NoEqDup(target, eq)
    ensures NoEqDup(AppendNew(target, cs, eq), eq)
  {
    AppendNewAdds(target, cs, eq);
    var r := AppendNew(target, cs, eq);
    forall i, j | 0 <= i < j < |r|
      ensures !eq(r[i], r[j])
    {
      if j < |target| {
        assert r[i] == target[i] && r[j] == target[j];
      }
    }
  }

  /** When `eq` is reflexive, every candidate ends up represented in the result. */
  lemma {:induction false} AppendNewCovers<T>(target: seq<T>, cs: seq<T>, eq: (T, T) -> bool)
    requires forall x :: eq(x, x)
    ensures forall k :: 0 <= k < |cs| ==> Contains(AppendNew(target, cs, eq), cs[k], eq)
    decreases |cs|
  {
    if cs != [] {
      var t := if Contains(target, cs[0], eq) then target else target + [cs[0]];
      AppendNewCovers(t, cs[1..], eq);
      var r := AppendNew(target, cs, eq);
      assert r[..|t|] == t;
      assert Contains(t, cs[0], eq) by {
        if !Contains(target, cs[0], eq) {
          assert eq(t[|target|], cs[0]);
        }
      }
      var i :| 0 <= i < |t| && eq(t[i], cs[0]);
      assert r[i] == t[i];
      forall k | 0 <= k < |cs|
        ensures Contains(r, cs[k], eq)
      {
        if k > 0 {
          assert cs[k] == cs[1..][k - 1];
        }
      }
    }
  }

  lemma {:induction false} MapContains<T, U>(s: seq<T>, x: T, f: T -> U, eqU: (U, U) -> bool, eqT: (T, T) -> bool)
    requires forall a, b :: eqT(a, b) == eqU(f(a), f(b))
    ensures Contains(Map(s, f), f(x), eqU) == Contains(s, x, eqT)
  {
    if Contains(s, x, eqT) {
      var i :| 0 <= i < |s| && eqT(s[i], x);
      assert eqU(Map(s, f)[i], f(x));
    }
  }

  lemma {:induction false} MapAppendNew<T, U>(target: seq<T>, cs: seq<T>, f: T -> U, eqU: (U, U) -> bool, eqT: (T, T) -> bool)
    requires forall a, b :: eqT(a, b) == eqU(f(a), f(b))
    ensures Map(AppendNew(target, cs, eqT), f) == AppendNew(Map(target, f), Map(cs, f), eqU)
    decreases |cs|
  {
    if cs != [] {
      MapContains(target, cs[0], f, eqU, eqT);
      var t := if Contains(target, cs[0], eqT) then target else target + [cs[0]];
      MapAppend(target, [cs[0]], f);
      assert Map(cs, f)[1..] == Map(cs[1..], f);
      assert Map(t, f) == if Contains(Map(target, f), Map(cs, f)[0], eqU) then Map(target, f) else Map(target, f) + [Map(cs, f)[0]];
      MapAppendNew(t, cs[1..], f, eqU, eqT);
    }
  }

  /** No value occurs twice. */
  predicate NoDup<T(==)>(s: seq<T>) {
    forall i, j :: 0 <= i < j < |s| ==> s[i] != s[j]
  }

  /** A subsequence of a list without `eq`-duplicates has none either. */
  lemma {:induction false} SubseqNoEqDup<T>(a: seq<T>, b: seq<T>, eq: (T, T) -> bool)
    requires IsSubseq(a, b) && NoEqDup(b, eq)
    ensures NoEqDup(a, eq)
    decreases |b|
  {
    if b != [] {
      assert NoEqDup(b[1..], eq) by {
        forall i, j | 0 <= i < j < |b[1..]|
          ensures !eq(b[1..][i], b[1..][j])
        {
          assert b[1..][i] == b[i + 1] && b[1..][j] == b[j + 1];
        }
      }
      if IsSubseq(a, b[1..]) {
        SubseqNoEqDup(a, b[1..], eq);
      } else {
        SubseqNoEqDup(a[1..], b[1..], eq);
        SubseqElements(a[1..], b[1..]);
        forall i, j | 0 <= i < j < |a|
          ensures !eq(a[i], a[j])
        {
          if i == 0 {
            assert a[j] == a[1..][j - 1] && a[j] in b[1..];
            var k :| 0 <= k < |b[1..]| && b[1..][k] == a[j];
            assert b[k + 1] == a[j];
          } else {
            assert a[i] == a[1..][i - 1] && a[j] == a[1..][j - 1];
          }
        }
      }
    }
  }

  /** Without duplicates, every element occurs exactly once. */
  lemma {:induction false} NoDupMultiplicity<T>(s: seq<T>)
    ensures NoDup(s) <==> forall x :: x in s ==> multiset(s)[x] == 1
    decreases |s|
  {
    if s != [] {
      var h, t := s[0], s[1..];
      assert s == [h] + t;
      assert multiset(s) == multiset{h} + multiset(t);
      NoDupMultiplicity(t);
      if NoDup(s) {
        forall k | 0 <= k < |t|
          ensures t[k] != h
        {
          assert t[k] == s[k + 1];
        }
        assert NoDup(t) by {
          forall i, j | 0 <= i < j < |t|
            ensures t[i] != t[j]
          {
            assert t[i] == s[i + 1] && t[j] == s[j + 1];
          }
        }
      } else if forall x :: x in s ==> multiset(s)[x] == 1 {
        assert h !in t by {
          assert multiset(s)[h] == 1;
        }
        forall x | x in t
          ensures multiset(t)[x] == 1
        {
          assert x != h && x in s;
        }
        forall i, j | 0 <= i < j < |s|
          ensures s[i] != s[j]
        {
          if i == 0 {
            assert s[j] == t[j - 1];
          } else {
            assert s[i] == t[i - 1] && s[j] == t[j - 1];
          }
        }
      }
    }
  }

  /** A permutation of a list without duplicates has none. */
  lemma NoDupPermutation<T>(a: seq<T>, b: seq<T>)
    requires multiset(a) == multiset(b) && NoDup(a)
    ensures NoDup(b)
  {
    NoDupMultiplicity(a);
    NoDupMultiplicity(b);
    forall x | x in b
      ensures multiset(b)[x] == 1
    {
      assert x in multiset(b);
      assert x in a;
    }
  }

  /** RemoveFirst takes out only an element that matches. */
  lemma RemoveFirstKeeps<T>(s: seq<T>, matches: T -> bool, x: T)
    requires x in s && !matches(x)
    ensures x in RemoveFirst(s, matches)
  {
    var k := FirstIndex(s, matches);
    if k < |s| {
      var i :| 0 <= i < |s| && s[i] == x;
      if i < k {
        assert RemoveFirst(s, matches)[i] == x;
      } else {
        assert RemoveFirst(s, matches)[i - 1] == x;
      }
    }
  }

  /** Nothing matches: RemoveFirst changes nothing. */
  lemma RemoveFirstNone<T>(s: seq<T>, matches: T -> bool)
    requires forall i :: 0 <= i < |s| ==> !matches(s[i])
    ensures RemoveFirst(s, matches) == s
  {
  }

  /** Only the appended element matches: RemoveFirst takes it back out. */
  lemma RemoveFirstLast<T>(s: seq<T>, x: T, matches: T -> bool)
    requires forall i :: 0 <= i < |s| ==> !matches(s[i])
    requires matches(x)
    ensures RemoveFirst(s + [x], matches) == s
  {
    assert forall i :: 0 <= i < |s| ==> (s + [x])[i] == s[i];
    assert (s + [x])[|s|] == x;
    assert FirstIndex(s + [x], matches) == |s|;
    assert (s + [x])[..|s|] == s;
  }
}
