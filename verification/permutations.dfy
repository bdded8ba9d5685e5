/** `itertools.permutations`: every ordering of a pool, in the order the
    library yields them (first element chosen by position, the rest permuted
    recursively). */
module Orderings {
  import opened Seqs
  import opened Product
  import Arith

  function Factorial(n: nat): (r: nat)
    ensures r >= 1
  {
    if n == 0 then 1 else n * Factorial(n - 1)
  }

  /** All orderings of `pool`: `list(permutations(pool))`. */
  function Permutations<T>(pool: seq<T>): (r: seq<seq<T>>)
    ensures forall k :: 0 <= k < |r| ==> multiset(r[k]) == multiset(pool)
    decreases |pool|, 1
  {
    if |pool| == 0 then [[]] else Choices(pool, 0)
  }

  /** The orderings of `pool` whose first element is `pool[i]`, then those
      starting with `pool[i + 1]`, and so on. */
  function Choices<T>(pool: seq<T>, i: nat): (r: seq<seq<T>>)
    requires 0 < |pool| && i <= |pool|
    ensures forall k :: 0 <= k < |r| ==> multiset(r[k]) == multiset(pool)
    ensures forall k :: 0 <= k < |r| ==> |r[k]| > 0 && r[k][0] in pool[i..]
    decreases |pool|, 0, |pool| - i
  {
    if i == |pool| then []
    else
      var first := Prepend(pool[i], Permutations(RemoveAt(pool, i)));
      var later := Choices(pool, i + 1);
      ChoicesBlocks(pool, i, Permutations(RemoveAt(pool, i)), later);
      first + later
  }

  /** A pool of `n` elements has `n!` orderings. */
  lemma {:induction false} PermutationsCount<T>(pool: seq<T>)
    ensures |Permutations(pool)| == Factorial(|pool|)
    decreases |pool|, 1
  {
    if |pool| > 0 {
      ChoicesCount(pool, 0);
    }
  }

  lemma {:induction false} ChoicesCount<T>(pool: seq<T>, i: nat)
    requires 0 < |pool| && i <= |pool|
    ensures |Choices(pool, i)| == (|pool| - i) * Factorial(|pool| - 1)
    decreases |pool|, 0, |pool| - i
  {
    if i < |pool| {
      PermutationsCount(RemoveAt(pool, i));
      ChoicesCount(pool, i + 1);
      Arith.MulSucc(|pool| - i - 1, Factorial(|pool| - 1));
    }
  }

  /** The block for `pool[i]` followed by the later blocks keeps the
      promises of `Choices`. */
  lemma ChoicesBlocks<T>(pool: seq<T>, i: nat, P: seq<seq<T>>, later: seq<seq<T>>)
    requires i < |pool|
    requires forall k :: 0 <= k < |P| ==> multiset(P[k]) == multiset(RemoveAt(pool, i))
    requires forall k :: 0 <= k < |later| ==> multiset(later[k]) == multiset(pool)
    requires forall k :: 0 <= k < |later| ==> |later[k]| > 0 && later[k][0] in pool[i + 1..]
    ensures var all := Prepend(pool[i], P) + later;
      forall k :: 0 <= k < |all| ==> multiset(all[k]) == multiset(pool)
    ensures var all := Prepend(pool[i], P) + later;
      forall k :: 0 <= k < |all| ==> |all[k]| > 0 && all[k][0] in pool[i..]
  {
    var rest := RemoveAt(pool, i);
    var first := Prepend(pool[i], P);
    forall k | 0 <= k < |first + later|
      ensures multiset((first + later)[k]) == multiset(pool)
      ensures |(first + later)[k]| > 0 && (first + later)[k][0] in pool[i..]
    {
      if k < |first| {
        assert (first + later)[k] == [pool[i]] + P[k];
        assert multiset(P[k]) == multiset(rest);
      } else {
        var x := later[k - |first|];
        assert (first + later)[k] == x;
        assert x[0] in pool[i + 1..];
        assert pool[i..] == [pool[i]] + pool[i + 1..];
      }
    }
  }

  lemma AppendDistinct<T>(a: seq<T>, b: seq<T>)
    requires Distinct(a) && Distinct(b)
    requires forall i, j :: 0 <= i < |a| && 0 <= j < |b| ==> a[i] != b[j]
    ensures Distinct(a + b)
  {
  }

  /** A pool without repeated elements has no repeated orderings. */
  lemma {:induction false} PermutationsDistinct<T>(pool: seq<T>)
    requires Distinct(pool)
    ensures Distinct(Permutations(pool))
    decreases |pool|, 1
  {
    if |pool| > 0 {
      ChoicesDistinct(pool, 0);
    }
  }

  lemma {:induction false} ChoicesDistinct<T>(pool: seq<T>, i: nat)
    requires 0 < |pool| && i <= |pool| && Distinct(pool)
    ensures Distinct(Choices(pool, i))
    decreases |pool|, 0, |pool| - i
  {
    if i < |pool| {
      var rest := RemoveAt(pool, i);
      RemoveAtDistinct(pool, i);
      PermutationsDistinct(rest);
      ChoicesDistinct(pool, i + 1);
      var P := Permutations(rest);
      var later := Choices(pool, i + 1);
      ChoicesUnfold(pool, i);
      PrependDistinct(pool[i], P);
      assert pool[i] !in pool[i + 1..];
      BlocksApart(pool[i], pool[i + 1..], P, later);
      AppendDistinct(Prepend(pool[i], P), later);
    }
  }

  /** Putting the same element in front keeps rows distinct. */
  lemma PrependDistinct<T>(x: T, rows: seq<seq<T>>)
    requires Distinct(rows)
    ensures Distinct(Prepend(x, rows))
  {
    var first := Prepend(x, rows);
    forall a, b | 0 <= a < b < |first|
      ensures first[a] != first[b]
    {
      assert first[a][1..] == rows[a];
      assert first[b][1..] == rows[b];
    }
  }

  /** Rows starting with `x` differ from rows starting inside `tail`, when
      `x` is not in `tail`. */
  lemma BlocksApart<T>(x: T, tail: seq<T>, P: seq<seq<T>>, later: seq<seq<T>>)
    requires x !in tail
    requires forall k :: 0 <= k < |later| ==> |later[k]| > 0 && later[k][0] in tail
    ensures forall a, b :: 0 <= a < |P| && 0 <= b < |later| ==> Prepend(x, P)[a] != later[b]
  {
    var first := Prepend(x, P);
    forall a, b | 0 <= a < |P| && 0 <= b < |later|
      ensures first[a] != later[b]
    {
      assert first[a][0] == x;
    }
  }

  /** Every rearrangement of `pool` is one of its enumerated orderings. */
  lemma {:induction false} PermutationsComplete<T>(pool: seq<T>, q: seq<T>)
    requires multiset(q) == multiset(pool)
    ensures q in Permutations(pool)
    decreases |pool|
  {
    SameLength(q, pool);
    if |pool| == 0 {
      assert q == [];
    } else {
      var i := HeadSource(pool, q);
      var rest := RemoveAt(pool, i);
      TailArrangement(pool, q, i);
      PermutationsComplete(rest, q[1..]);
      var k := PrependFind(pool[i], Permutations(rest), q);
      ChoicesContain(pool, 0, i, k);
    }
  }

  /** Rearrangements have the same length. */
  lemma SameLength<T>(q: seq<T>, pool: seq<T>)
    requires multiset(q) == multiset(pool)
    ensures |q| == |pool|
  {
    assert |q| == |multiset(q)| == |multiset(pool)| == |pool|;
  }

  /** Where the first element of a non-empty rearrangement sits in the pool. */
  lemma HeadSource<T>(pool: seq<T>, q: seq<T>) returns (i: nat)
    requires 0 < |q| && multiset(q) == multiset(pool)
    ensures i < |pool| && pool[i] == q[0]
  {
    assert q[0] in multiset(q);
    assert q[0] in multiset(pool);
    i :| 0 <= i < |pool| && pool[i] == q[0];
  }

  /** A row `x` followed by a listed tail is listed after prepending `x`. */
  lemma PrependFind<T>(x: T, P: seq<seq<T>>, q: seq<T>) returns (k: nat)
    requires 0 < |q| && q[0] == x && q[1..] in P
    ensures k < |P| && Prepend(x, P)[k] == q
  {
    k :| 0 <= k < |P| && P[k] == q[1..];
    assert q == [x] + q[1..];
  }

  /** Taking the matching head off both sides keeps a rearrangement. */
  lemma TailArrangement<T>(pool: seq<T>, q: seq<T>, i: nat)
    requires 0 < |q| && i < |pool| && pool[i] == q[0] && multiset(q) == multiset(pool)
    ensures multiset(q[1..]) == multiset(RemoveAt(pool, i))
  {
    assert q == [q[0]] + q[1..];
    assert multiset(q[1..]) == multiset(q) - multiset{q[0]};
  }

  /** The block for `pool[i]` is part of every `Choices(pool, i0)` with `i0 <= i`. */
  lemma {:induction false} ChoicesContain<T>(pool: seq<T>, i0: nat, i: nat, k: nat)
    requires i0 <= i < |pool| && k < |Permutations(RemoveAt(pool, i))|
    ensures Prepend(pool[i], Permutations(RemoveAt(pool, i)))[k] in Choices(pool, i0)
    decreases i - i0
  {
    var first := Prepend(pool[i0], Permutations(RemoveAt(pool, i0)));
    var later := Choices(pool, i0 + 1);
    assert Choices(pool, i0) == first + later;
    if i0 < i {
      ChoicesContain(pool, i0 + 1, i, k);
      InAppendRight(first, later, Prepend(pool[i], Permutations(RemoveAt(pool, i)))[k]);
    } else {
      assert (first + later)[k] == first[k];
    }
  }

  lemma InAppendRight<T>(a: seq<T>, b: seq<T>, x: T)
    requires x in b
    ensures x in a + b
  {
    var j :| 0 <= j < |b| && b[j] == x;
    assert (a + b)[|a| + j] == x;
  }

  /** Every row is a sequence of indices below `n`. */
  predicate RowsInBounds(rows: seq<seq<nat>>, n: nat) {
    forall k :: 0 <= k < |rows| ==> InBounds(rows[k], n)
  }

  /** Each row of index lists turned into the elements of `titles` it picks. */
  function SelectRows<T>(titles: seq<T>, rows: seq<seq<nat>>): (r: seq<seq<T>>)
    requires RowsInBounds(rows, |titles|)
    ensures |r| == |rows|
    ensures forall k :: 0 <= k < |rows| ==> r[k] == Select(titles, rows[k])
  {
    seq(|rows|, k requires 0 <= k < |rows| => Select(titles, rows[k]))
  }

  lemma SelectRowsAppend<T>(titles: seq<T>, a: seq<seq<nat>>, b: seq<seq<nat>>)
    requires RowsInBounds(a, |titles|) && RowsInBounds(b, |titles|)
    ensures RowsInBounds(a + b, |titles|)
    ensures SelectRows(titles, a + b) == SelectRows(titles, a) + SelectRows(titles, b)
  {
    assert forall k :: 0 <= k < |a + b| ==> (a + b)[k] == if k < |a| then a[k] else b[k - |a|];
  }

  lemma SelectRowsPrepend<T>(titles: seq<T>, x: nat, rows: seq<seq<nat>>)
    requires x < |titles| && RowsInBounds(rows, |titles|)
    ensures RowsInBounds(Prepend(x, rows), |titles|)
    ensures SelectRows(titles, Prepend(x, rows)) == Prepend(titles[x], SelectRows(titles, rows))
  {
    var l := SelectRows(titles, Prepend(x, rows));
    var r := Prepend(titles[x], SelectRows(titles, rows));
    forall k | 0 <= k < |rows|
      ensures l[k] == r[k]
    {
      assert Select(titles, [x] + rows[k]) == [titles[x]] + Select(titles, rows[k]);
    }
  }

  lemma PermutationRowsInBounds(pool: seq<nat>, n: nat)
    requires InBounds(pool, n)
    ensures RowsInBounds(Permutations(pool), n)
  {
    ArrangementsInBounds(Permutations(pool), pool, n);
  }

  /** Rearrangements of an in-bounds index list stay in bounds. */
  lemma ArrangementsInBounds(rows: seq<seq<nat>>, pool: seq<nat>, n: nat)
    requires InBounds(pool, n)
    requires forall k :: 0 <= k < |rows| ==> multiset(rows[k]) == multiset(pool)
    ensures RowsInBounds(rows, n)
  {
    forall k, j | 0 <= k < |rows| && 0 <= j < |rows[k]|
      ensures rows[k][j] < n
    {
      assert rows[k][j] in multiset(rows[k]);
      assert rows[k][j] in multiset(pool);
    }
  }

  /** Enumerating orderings commutes with relabelling indices by `titles`:
      permuting the indices and then looking the titles up is the same as
      permuting the titles. */
  lemma {:induction false} PermutationsRelabel<T>(titles: seq<T>, pool: seq<nat>)
    requires InBounds(pool, |titles|)
    ensures RowsInBounds(Permutations(pool), |titles|)
    ensures SelectRows(titles, Permutations(pool)) == Permutations(Select(titles, pool))
    decreases |pool|, 1
  {
    PermutationRowsInBounds(pool, |titles|);
    if |pool| > 0 {
      ChoicesRelabel(titles, pool, 0);
    }
  }

  lemma {:induction false} ChoicesRelabel<T>(titles: seq<T>, pool: seq<nat>, i: nat)
    requires 0 < |pool| && i <= |pool| && InBounds(pool, |titles|)
    ensures RowsInBounds(Choices(pool, i), |titles|)
    ensures SelectRows(titles, Choices(pool, i)) == Choices(Select(titles, pool), i)
    decreases |pool|, 0, |pool| - i
  {
    ArrangementsInBounds(Choices(pool, i), pool, |titles|);
    if i < |pool| {
      var named := Select(titles, pool);
      var rest := RemoveAt(pool, i);
      RemoveAtSelect(titles, pool, i);
      PermutationsRelabel(titles, rest);
      ChoicesRelabel(titles, pool, i + 1);
      var P := Permutations(rest);
      var first := Prepend(pool[i], P);
      var later := Choices(pool, i + 1);
      ChoicesUnfold(pool, i);
      ChoicesUnfold(named, i);
      SelectRowsPrepend(titles, pool[i], P);
      SelectRowsAppend(titles, first, later);
      calc {
        SelectRows(titles, Choices(pool, i));
        SelectRows(titles, first) + SelectRows(titles, later);
        Prepend(titles[pool[i]], Permutations(Select(titles, rest))) + Choices(named, i + 1);
        Prepend(named[i], Permutations(RemoveAt(named, i))) + Choices(named, i + 1);
        Choices(named, i);
      }
    }
  }

  /** One unfolding of `Choices`: the block starting with `pool[i]`, then
      the later blocks. */
  lemma ChoicesUnfold<T>(pool: seq<T>, i: nat)
    requires i < |pool|
    ensures Choices(pool, i) == Prepend(pool[i], Permutations(RemoveAt(pool, i))) + Choices(pool, i + 1)
  {
  }

  /** Dropping an index and then looking the titles up is dropping the
      looked-up title. */
  lemma RemoveAtSelect<T>(titles: seq<T>, pool: seq<nat>, i: nat)
    requires InBounds(pool, |titles|) && i < |pool|
    ensures InBounds(RemoveAt(pool, i), |titles|)
    ensures RemoveAt(Select(titles, pool), i) == Select(titles, RemoveAt(pool, i))
  {
  }

}
