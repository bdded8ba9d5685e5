/** Generic sequence vocabulary shared by the scanner model: Python list
    lookups and removals, numpy fancy indexing, stride slicing and reversal. */
module Seqs {
  import opened Outcomes

  /** `range(n)` / `np.arange(n)`. */
  function Range(n: nat): (r: seq<nat>)
    ensures |r| == n
    ensures forall i :: 0 <= i < n ==> r[i] == i
  {
    seq(n, i => i)
  }

  lemma RangeSnoc(n: nat)
    ensures Range(n + 1) == Range(n) + [n]
  {
  }

  /** No element occurs twice. */
  predicate Distinct<T(==)>(s: seq<T>) {
    forall i, j :: 0 <= i < j < |s| ==> s[i] != s[j]
  }

  /** Every index of `idx` lies inside a sequence of length `n`. */
  predicate InBounds(idx: seq<nat>, n: nat) {
    forall i :: 0 <= i < |idx| ==> idx[i] < n
  }

  /** numpy fancy indexing `s[idx]`: the elements of `s` at the listed indices. */
  function Select<T>(s: seq<T>, idx: seq<nat>): (r: seq<T>)
    requires InBounds(idx, |s|)
    ensures |r| == |idx|
    ensures forall i :: 0 <= i < |idx| ==> r[i] == s[idx[i]]
  {
    seq(|idx|, i requires 0 <= i < |idx| => s[idx[i]])
  }

  /** `idx` lists every index below `n` exactly once, as drawn by
      `rng.choice(n, size=n, replace=False)`. */
  predicate IsIndexPermutation(idx: seq<nat>, n: nat) {
    multiset(idx) == multiset(Range(n))
  }

  lemma IndexPermutationShape(idx: seq<nat>, n: nat)
    requires IsIndexPermutation(idx, n)
    ensures |idx| == n
    ensures InBounds(idx, n)
    ensures Distinct(idx)
  {
    assert |multiset(idx)| == |multiset(Range(n))|;
    forall i | 0 <= i < |idx|
      ensures idx[i] < n
    {
      assert idx[i] in multiset(idx);
      assert idx[i] in multiset(Range(n));
    }
    forall i, j | 0 <= i < j < |idx|
      ensures idx[i] != idx[j]
    {
      if idx[i] == idx[j] {
        TwiceCounted(idx, i, j);
        RangeCount(n, idx[i]);
        assert false;
      }
    }
  }

  lemma TwiceCounted<T>(s: seq<T>, i: nat, j: nat)
    requires i < j < |s| && s[i] == s[j]
    ensures multiset(s)[s[i]] >= 2
  {
    var pre := s[..j];
    assert s == pre + s[j..];
    assert s[i] in pre;
    assert s[j] in s[j..];
  }

  lemma RangeCount(n: nat, v: nat)
    ensures multiset(Range(n))[v] == (if v < n then 1 else 0)
  {
    if n > 0 {
      RangeSnoc(n - 1);
      RangeCount(n - 1, v);
    }
  }

  /** `s` with the element at index `i` taken out. */
  function RemoveAt<T>(s: seq<T>, i: nat): (r: seq<T>)
    requires i < |s|
    ensures |r| == |s| - 1
    ensures multiset(r) + multiset{s[i]} == multiset(s)
    ensures forall j :: 0 <= j < i ==> r[j] == s[j]
    ensures forall j :: i <= j < |r| ==> r[j] == s[j + 1]
  {
    assert s == s[..i] + [s[i]] + s[i + 1..];
    s[..i] + s[i + 1..]
  }

  /** Python's reading of a possibly negative index into a sequence of length
      `n`; `None` is an `IndexError`. */
  function PyIndex(i: int, n: nat): (r: Option<nat>)
    ensures r.Some? <==> -(n as int) <= i < n
    ensures r.Some? ==> r.value < n
    ensures r.Some? && 0 <= i ==> r.value == i
    ensures r.Some? && i < 0 ==> r.value - i == n
  {
    if 0 <= i < n then Some(i)
    else if -(n as int) <= i < 0 then Some(n + i)
    else None
  }

  lemma RemoveAtDistinct<T>(s: seq<T>, i: nat)
    requires i < |s| && Distinct(s)
    ensures Distinct(RemoveAt(s, i))
    ensures s[i] !in RemoveAt(s, i)
  {
  }

  /** A distinct list of indices below `b` has at most `b` entries. */
  lemma {:induction false} DistinctBound(idx: seq<nat>, b: nat)
    requires Distinct(idx) && InBounds(idx, b)
    ensures |idx| <= b
    decreases b
  {
    if b > 0 {
      match IndexOf(idx, b - 1)
      case None =>
        DistinctBound(idx, b - 1);
      case Some(m) =>
        var rest := RemoveAt(idx, m);
        RemoveAtDistinct(idx, m);
        DistinctBound(rest, b - 1);
    }
  }

  /** Pigeonhole: `n` distinct indices below `n` are a rearrangement of
      `range(n)`. */
  lemma {:induction false} DistinctIndexPermutation(idx: seq<nat>, n: nat)
    requires |idx| == n && Distinct(idx) && InBounds(idx, n)
    ensures IsIndexPermutation(idx, n)
    decreases n
  {
    if n > 0 {
      match IndexOf(idx, n - 1)
      case None =>
        DistinctBound(idx, n - 1);
        assert false;
      case Some(m) =>
        var p: nat := n - 1;
        var rest := RemoveAt(idx, m);
        RemoveAtDistinct(idx, m);
        DistinctIndexPermutation(rest, p);
        RangeSnoc(p);
        assert multiset(Range(n)) == multiset(Range(p)) + multiset{p};
    }
  }

  /** An element occurs at most once in a distinct sequence. */
  lemma {:induction false} DistinctCount<T>(s: seq<T>, x: T)
    requires Distinct(s)
    ensures multiset(s)[x] <= 1
  {
    if |s| > 0 {
      DistinctCount(s[1..], x);
      assert s == [s[0]] + s[1..];
      assert s[0] !in s[1..];
    }
  }

  /** Rearranging a distinct sequence keeps it distinct. */
  lemma MultisetDistinct<T>(a: seq<T>, b: seq<T>)
    requires Distinct(a) && multiset(a) == multiset(b)
    ensures Distinct(b)
  {
    forall i, j | 0 <= i < j < |b|
      ensures b[i] != b[j]
    {
      if b[i] == b[j] {
        TwiceCounted(b, i, j);
        DistinctCount(a, b[i]);
        assert false;
      }
    }
  }

  /** `list.index(x)`: the position of the first occurrence of `x`. */
  function IndexOf<T(==)>(s: seq<T>, x: T): (r: Option<nat>)
    ensures r.None? <==> x !in s
    ensures r.Some? ==> r.value < |s| && s[r.value] == x && x !in s[..r.value]
  {
    if |s| == 0 then None
    else if s[0] == x then Some(0)
    else
      match IndexOf(s[1..], x)
      case None => None
      case Some(i) =>
        assert s[..i + 1] == [s[0]] + s[1..][..i];
        Some(i + 1)
  }

  /** `list.remove(x)`: drop the first occurrence of `x`. */
  function RemoveFirst<T(==)>(s: seq<T>, x: T): (r: seq<T>)
    requires x in s
    ensures |r| == |s| - 1
    ensures multiset(r) + multiset{x} == multiset(s)
    ensures exists i :: 0 <= i < |s| && s[i] == x && x !in s[..i] && r == s[..i] + s[i + 1..]
  {
    var i := IndexOf(s, x).value;
    assert s[i] == x && x !in s[..i];
    RemoveAt(s, i)
  }

  /** The elements of `s` that occur in `allowed`, in their order in `s`. */
  function KeepIn<T(==)>(s: seq<T>, allowed: seq<T>): (r: seq<T>)
    ensures |r| <= |s|
    ensures forall i :: 0 <= i < |r| ==> r[i] in s && r[i] in allowed
    ensures forall i :: 0 <= i < |s| && s[i] in allowed ==> s[i] in r
  {
    if |s| == 0 then []
    else if s[0] in allowed then [s[0]] + KeepIn(s[1..], allowed)
    else KeepIn(s[1..], allowed)
  }

  /** The elements of `s` that do not occur in `excluded`, in their order in `s`. */
  function KeepOut<T(==)>(s: seq<T>, excluded: seq<T>): (r: seq<T>)
    ensures |r| <= |s|
    ensures forall i :: 0 <= i < |r| ==> r[i] in s && r[i] !in excluded
    ensures forall i :: 0 <= i < |s| && s[i] !in excluded ==> s[i] in r
  {
    if |s| == 0 then []
    else if s[0] !in excluded then [s[0]] + KeepOut(s[1..], excluded)
    else KeepOut(s[1..], excluded)
  }

  lemma AppendAssoc<T>(a: seq<T>, b: seq<T>, c: seq<T>)
    ensures (a + b) + c == a + (b + c)
  {
  }

  /** One step of the filter. */
  lemma KeepInCons<T>(s: seq<T>, allowed: seq<T>)
    requires |s| > 0
    ensures KeepIn(s, allowed) == if s[0] in allowed then [s[0]] + KeepIn(s[1..], allowed) else KeepIn(s[1..], allowed)
  {
  }

  /** What the filter keeps comes from the sequence. */
  lemma KeepInMembers<T>(s: seq<T>, allowed: seq<T>)
    ensures forall x :: x in KeepIn(s, allowed) ==> x in s && x in allowed
  {
  }

  lemma KeepInAppend<T>(a: seq<T>, b: seq<T>, allowed: seq<T>)
    ensures KeepIn(a + b, allowed) == KeepIn(a, allowed) + KeepIn(b, allowed)
  {
    if |a| == 0 {
      assert a + b == b;
    } else {
      assert (a + b)[0] == a[0];
      assert (a + b)[1..] == a[1..] + b;
      KeepInAppend(a[1..], b, allowed);
    }
  }

  /** Excluding nothing keeps everything. */
  lemma {:induction false} KeepOutNothing<T>(s: seq<T>)
    ensures KeepOut(s, []) == s
  {
    if |s| > 0 {
      KeepOutNothing(s[1..]);
      assert s == [s[0]] + s[1..];
    }
  }

  lemma KeepOutAppend<T>(a: seq<T>, b: seq<T>, excluded: seq<T>)
    ensures KeepOut(a + b, excluded) == KeepOut(a, excluded) + KeepOut(b, excluded)
  {
    if |a| == 0 {
      assert a + b == b;
    } else {
      assert (a + b)[0] == a[0];
      assert (a + b)[1..] == a[1..] + b;
      KeepOutAppend(a[1..], b, excluded);
    }
  }

  lemma KeepInDistinct<T>(s: seq<T>, allowed: seq<T>)
    requires Distinct(s)
    ensures Distinct(KeepIn(s, allowed))
  {
    if |s| > 0 {
      KeepInDistinct(s[1..], allowed);
      assert s[0] !in s[1..];
    }
  }

  /** Filtering out `a` and then `b` filters out `a + b`. */
  lemma {:induction false} KeepOutTwice<T>(s: seq<T>, a: seq<T>, b: seq<T>)
    ensures KeepOut(KeepOut(s, a), b) == KeepOut(s, a + b)
  {
    if |s| > 0 {
      KeepOutTwice(s[1..], a, b);
    }
  }

  /** Keeping the allowed elements of a list that holds nothing else changes nothing. */
  lemma {:induction false} KeepInAll<T>(s: seq<T>, allowed: seq<T>)
    requires forall i :: 0 <= i < |s| ==> s[i] in allowed
    ensures KeepIn(s, allowed) == s
  {
    if |s| > 0 {
      KeepInAll(s[1..], allowed);
    }
  }

  /** Removing one element that is not allowed does not change what is kept. */
  lemma KeepInRemoveAt<T>(s: seq<T>, j: nat, allowed: seq<T>)
    requires j < |s| && s[j] !in allowed
    ensures KeepIn(RemoveAt(s, j), allowed) == KeepIn(s, allowed)
  {
    assert s == s[..j] + ([s[j]] + s[j + 1..]);
    KeepInAppend(s[..j], [s[j]] + s[j + 1..], allowed);
    KeepInAppend([s[j]], s[j + 1..], allowed);
    KeepInAppend(s[..j], s[j + 1..], allowed);
  }

  /** The first occurrence of each element of `s`, in order. */
  function Dedup<T(==)>(s: seq<T>): (r: seq<T>)
    ensures Distinct(r)
    ensures forall i :: 0 <= i < |r| ==> r[i] in s
    ensures forall i :: 0 <= i < |s| ==> s[i] in r
    decreases |s|
  {
    if |s| == 0 then []
    else [s[0]] + Dedup(KeepOut(s[1..], [s[0]]))
  }

  /** `s[0::2]`: the elements at even indices. */
  function Evens<T>(s: seq<T>): (r: seq<T>)
    ensures |r| == (|s| + 1) / 2
  {
    seq((|s| + 1) / 2, i requires 0 <= i < (|s| + 1) / 2 => s[2 * i])
  }

  /** `s[1::2]`: the elements at odd indices. */
  function Odds<T>(s: seq<T>): (r: seq<T>)
    ensures |r| == |s| / 2
  {
    seq(|s| / 2, i requires 0 <= i < |s| / 2 => s[2 * i + 1])
  }

  /** Dropping the first element swaps the roles of the two halves. */
  lemma HalvesCons<T>(s: seq<T>)
    requires |s| > 0
    ensures Evens(s) == [s[0]] + Odds(s[1..])
    ensures Odds(s) == Evens(s[1..])
  {
    var e, o := Evens(s), Odds(s[1..]);
    assert |e| == |[s[0]] + o|;
    forall i | 0 <= i < |e|
      ensures e[i] == ([s[0]] + o)[i]
    {
      if i > 0 {
        assert o[i - 1] == s[1..][2 * (i - 1) + 1];
      }
    }
    var o', e' := Odds(s), Evens(s[1..]);
    assert |o'| == |e'|;
    forall i | 0 <= i < |o'|
      ensures o'[i] == e'[i]
    {
      assert e'[i] == s[1..][2 * i];
    }
  }

  /** The even- and odd-indexed halves together hold exactly the elements of `s`. */
  lemma {:induction false} EvensOddsMultiset<T>(s: seq<T>)
    ensures multiset(Evens(s)) + multiset(Odds(s)) == multiset(s)
    decreases |s|
  {
    if |s| > 0 {
      HalvesCons(s);
      EvensOddsMultiset(s[1..]);
      assert s == [s[0]] + s[1..];
    }
  }

  /** `np.flip` / `reversed`. */
  function Reverse<T>(s: seq<T>): (r: seq<T>)
    ensures |r| == |s|
  {
    seq(|s|, i requires 0 <= i < |s| => s[|s| - 1 - i])
  }

  /** Reversing keeps the elements. */
  lemma {:induction false} ReverseMultiset<T>(s: seq<T>)
    ensures multiset(Reverse(s)) == multiset(s)
    decreases |s|
  {
    if |s| > 0 {
      ReverseMultiset(s[1..]);
      assert Reverse(s) == Reverse(s[1..]) + [s[0]];
      assert s == [s[0]] + s[1..];
    }
  }

  /** Apply `f` to every element. */
  function MapSeq<T, U>(f: T -> U, s: seq<T>): (r: seq<U>)
    ensures |r| == |s|
    ensures forall i :: 0 <= i < |s| ==> r[i] == f(s[i])
  {
    seq(|s|, i requires 0 <= i < |s| => f(s[i]))
  }

  /** Taking the largest index out of a permutation of `Range(n + 1)` leaves
      a permutation of `Range(n)`. */
  lemma DropLastIndex(idx: seq<nat>, n: nat, m: nat)
    requires IsIndexPermutation(idx, n + 1)
    requires m < |idx| && idx[m] == n
    ensures IsIndexPermutation(RemoveAt(idx, m), n)
  {
    RangeSnoc(n);
    var rest := RemoveAt(idx, m);
    assert multiset(rest) == multiset(idx) - multiset{n};
    assert multiset(Range(n + 1)) == multiset(Range(n)) + multiset{n};
    assert multiset(Range(n)) == multiset(Range(n + 1)) - multiset{n};
  }

  lemma InsertMultiset<T>(a: seq<T>, x: T, m: nat, whole: seq<T>)
    requires m <= |a| && whole == a[..m] + [x] + a[m..]
    ensures multiset(whole) == multiset(a) + multiset{x}
  {
    assert a == a[..m] + a[m..];
  }

  lemma LastMultiset<T>(s: seq<T>)
    requires |s| > 0
    ensures multiset(s) == multiset(s[..|s| - 1]) + multiset{s[|s| - 1]}
  {
    assert s == s[..|s| - 1] + [s[|s| - 1]];
  }

  lemma SelectAroundLast<T>(s: seq<T>, idx: seq<nat>, m: nat)
    requires |s| > 0 && InBounds(idx, |s|)
    requires m < |idx| && idx[m] == |s| - 1
    requires InBounds(RemoveAt(idx, m), |s| - 1)
    ensures Select(s, idx)
         == Select(s[..|s| - 1], RemoveAt(idx, m))[..m] + [s[|s| - 1]]
          + Select(s[..|s| - 1], RemoveAt(idx, m))[m..]
  {
  }

  /** Selecting by a permutation of the indices rearranges `s` without adding
      or losing elements. */
  lemma {:induction false} SelectByPermutation<T>(s: seq<T>, idx: seq<nat>)
    requires IsIndexPermutation(idx, |s|)
    ensures InBounds(idx, |s|)
    ensures multiset(Select(s, idx)) == multiset(s)
    decreases |s|
  {
    IndexPermutationShape(idx, |s|);
    if |s| > 0 {
      var n: nat := |s| - 1;
      RangeSnoc(n);
      assert n in multiset(Range(n + 1));
      assert n in multiset(idx);
      var m :| 0 <= m < |idx| && idx[m] == n;
      var rest := RemoveAt(idx, m);
      DropLastIndex(idx, n, m);
      IndexPermutationShape(rest, n);
      SelectByPermutation(s[..n], rest);
      var sel := Select(s[..n], rest);
      SelectAroundLast(s, idx, m);
      InsertMultiset(sel, s[n], m, Select(s, idx));
      LastMultiset(s);
    }
  }
}
