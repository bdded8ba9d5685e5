/** The trajectory combination of the scanner: `itertools.product` over the
    per-axis sequences (last axis varying fastest), the step count as a
    product of the per-axis counts, and the mixed-radix reading of a scan
    index that locates one row of the product without building it. */
module Product {
  import opened Seqs
  import Arith

  /** `np.prod(steps)`: the product of the step counts, 1 for no axes. */
  function StepsProduct(steps: seq<nat>): (p: nat)
    ensures |steps| == 0 ==> p == 1
    ensures p == 0 <==> exists j :: 0 <= j < |steps| && steps[j] == 0
  {
    if |steps| == 0 then 1
    else
      var rest := StepsProduct(steps[1..]);
      assert forall j :: 1 <= j < |steps| ==> steps[1..][j - 1] == steps[j];
      steps[0] * rest
  }

  /** Multiplying in one more axis at the end scales the product. */
  lemma {:induction false} StepsProductSnoc(steps: seq<nat>, n: nat)
    ensures StepsProduct(steps + [n]) == StepsProduct(steps) * n
  {
    if |steps| > 0 {
      assert (steps + [n])[1..] == steps[1..] + [n];
      StepsProductSnoc(steps[1..], n);
    } else {
      assert (steps + [n])[1..] == [];
    }
  }

  /** Taking one axis out divides it out of the product. */
  lemma {:induction false} StepsProductRemoveAt(steps: seq<nat>, i: nat)
    requires i < |steps|
    ensures StepsProduct(steps) == steps[i] * StepsProduct(RemoveAt(steps, i))
  {
    if i > 0 {
      var tail := steps[1..];
      StepsProductRemoveAt(tail, i - 1);
      var rest := RemoveAt(tail, i - 1);
      assert RemoveAt(steps, i) == [steps[0]] + rest;
      assert RemoveAt(steps, i)[1..] == rest;
      assert StepsProduct(steps) == steps[0] * (steps[i] * StepsProduct(rest));
      assert StepsProduct(RemoveAt(steps, i)) == steps[0] * StepsProduct(rest);
      Arith.MulSwap(steps[0], steps[i], StepsProduct(rest));
    } else {
      assert RemoveAt(steps, 0) == steps[1..];
    }
  }

  /** The total does not depend on the order of the axes. */
  lemma {:induction false} StepsProductPermutation(a: seq<nat>, b: seq<nat>)
    requires multiset(a) == multiset(b)
    ensures StepsProduct(a) == StepsProduct(b)
    decreases |a|
  {
    assert |a| == |multiset(a)| == |b|;
    if |a| > 0 {
      assert a[0] in multiset(b);
      var i :| 0 <= i < |b| && b[i] == a[0];
      var rest := RemoveAt(b, i);
      assert a == [a[0]] + a[1..];
      assert multiset(a[1..]) == multiset(a) - multiset{a[0]};
      assert multiset(rest) == multiset(b) - multiset{b[i]};
      StepsProductPermutation(a[1..], rest);
      StepsProductRemoveAt(b, i);
    }
  }

  /** The step count of every axis. */
  function Lengths<T>(axes: seq<seq<T>>): (r: seq<nat>)
    ensures |r| == |axes|
    ensures forall j :: 0 <= j < |axes| ==> r[j] == |axes[j]|
  {
    seq(|axes|, j requires 0 <= j < |axes| => |axes[j]|)
  }

  /** The rows of `rows`, each with `x` put in front. */
  function Prepend<T>(x: T, rows: seq<seq<T>>): (r: seq<seq<T>>)
    ensures |r| == |rows|
    ensures forall i :: 0 <= i < |rows| ==> r[i] == [x] + rows[i]
  {
    seq(|rows|, i requires 0 <= i < |rows| => [x] + rows[i])
  }

  /** One block of `Prepend(x, rows)` per element `x` of `xs`, in order. */
  function Spread<T>(xs: seq<T>, rows: seq<seq<T>>): (r: seq<seq<T>>)
    decreases |xs|
  {
    if |xs| == 0 then [] else Prepend(xs[0], rows) + Spread(xs[1..], rows)
  }

  /** `list(itertools.product(*axes))`: the nested-loop product, first axis
      outermost. No axes give the single empty combination. */
  function CartesianProduct<T>(axes: seq<seq<T>>): seq<seq<T>>
    decreases |axes|
  {
    if |axes| == 0 then [[]] else Spread(axes[0], CartesianProduct(axes[1..]))
  }

  /** Element `i * |rows| + c` of `Spread(xs, rows)` is `xs[i]` followed by `rows[c]`. */
  lemma {:induction false} SpreadAt<T>(xs: seq<T>, rows: seq<seq<T>>, i: nat, c: nat)
    requires i < |xs| && c < |rows|
    ensures |Spread(xs, rows)| == |xs| * |rows|
    ensures i * |rows| + c < |xs| * |rows|
    ensures Spread(xs, rows)[i * |rows| + c] == [xs[i]] + rows[c]
    decreases |xs|
  {
    SpreadLength(xs, rows);
    var R := |rows|;
    Arith.MulLeMono(i + 1, |xs|, R);
    if i > 0 {
      SpreadAt(xs[1..], rows, i - 1, c);
      assert (i - 1) * R + c == i * R + c - R;
      assert xs[1..][i - 1] == xs[i];
    }
  }

  lemma {:induction false} SpreadLength<T>(xs: seq<T>, rows: seq<seq<T>>)
    ensures |Spread(xs, rows)| == |xs| * |rows|
    decreases |xs|
  {
    if |xs| > 0 {
      SpreadLength(xs[1..], rows);
    }
  }

  /** The mixed-radix digits of scan index `k` against the step counts, the
      first axis most significant. */
  function Decompose(k: nat, steps: seq<nat>): (d: seq<nat>)
    requires k < StepsProduct(steps)
    ensures |d| == |steps|
    ensures forall j :: 0 <= j < |steps| ==> d[j] < steps[j]
    decreases |steps|
  {
    if |steps| == 0 then []
    else
      var inner := StepsProduct(steps[1..]);
      Arith.DivBelow(k, steps[0], inner);
      var tail := Decompose(k % inner, steps[1..]);
      assert forall j :: 1 <= j < |steps| ==> steps[1..][j - 1] == steps[j];
      [k / inner] + tail
  }

  /** Digits that fit their radices, one per axis. */
  predicate ValidDigits(d: seq<nat>, steps: seq<nat>) {
    |d| == |steps| && forall j :: 0 <= j < |steps| ==> d[j] < steps[j]
  }

  /** The scan index whose mixed-radix digits are `d`. */
  function Compose(d: seq<nat>, steps: seq<nat>): (k: nat)
    requires ValidDigits(d, steps)
    ensures k < StepsProduct(steps)
    decreases |steps|
  {
    if |steps| == 0 then 0
    else
      var inner := StepsProduct(steps[1..]);
      assert ValidDigits(d[1..], steps[1..]);
      var low := Compose(d[1..], steps[1..]);
      Arith.DigitBelow(d[0], steps[0], low, inner);
      d[0] * inner + low
  }

  /** Reading the digits of an index back gives the index. */
  lemma {:induction false} ComposeDecompose(k: nat, steps: seq<nat>)
    requires k < StepsProduct(steps)
    ensures ValidDigits(Decompose(k, steps), steps)
    ensures Compose(Decompose(k, steps), steps) == k
    decreases |steps|
  {
    if |steps| > 0 {
      var inner := StepsProduct(steps[1..]);
      Arith.FactorsPositive(k, steps[0], inner);
      Arith.DivMod(k, inner);
      var c := k % inner;
      ComposeDecompose(c, steps[1..]);
      var d := Decompose(k, steps);
      DecomposeCons(k, steps, k / inner, c);
      assert d[1..] == Decompose(c, steps[1..]);
      assert Compose(d, steps) == (k / inner) * inner + c;
    }
  }

  /** Every digit vector is the decomposition of exactly one index. */
  lemma {:induction false} DecomposeCompose(d: seq<nat>, steps: seq<nat>)
    requires ValidDigits(d, steps)
    ensures Decompose(Compose(d, steps), steps) == d
    decreases |steps|
  {
    if |steps| > 0 {
      var inner := StepsProduct(steps[1..]);
      assert ValidDigits(d[1..], steps[1..]);
      var low := Compose(d[1..], steps[1..]);
      DecomposeCompose(d[1..], steps[1..]);
      Arith.DivModUnique(d[0], low, inner);
      assert d == [d[0]] + d[1..];
    }
  }

  /** Strict lexicographic order on equal-length digit vectors. */
  predicate LexLess(a: seq<nat>, b: seq<nat>)
    decreases |a|
  {
    && |a| > 0 && |b| > 0
    && (a[0] < b[0] || (a[0] == b[0] && LexLess(a[1..], b[1..])))
  }

  /** The scan index order is the lexicographic order of the digit vectors. */
  lemma {:induction false} ComposeOrder(a: seq<nat>, b: seq<nat>, steps: seq<nat>)
    requires ValidDigits(a, steps) && ValidDigits(b, steps)
    ensures LexLess(a, b) <==> Compose(a, steps) < Compose(b, steps)
    decreases |steps|
  {
    if |steps| > 0 {
      var inner := StepsProduct(steps[1..]);
      assert ValidDigits(a[1..], steps[1..]) && ValidDigits(b[1..], steps[1..]);
      var la, lb := Compose(a[1..], steps[1..]), Compose(b[1..], steps[1..]);
      ComposeOrder(a[1..], b[1..], steps[1..]);
      if a[0] < b[0] {
        Arith.DigitBelow(a[0], b[0], la, inner);
      } else if b[0] < a[0] {
        Arith.DigitBelow(b[0], a[0], lb, inner);
      }
    }
  }

  /** The row of the product at scan index `k`, found by mixed-radix
      decomposition: coordinate `j` is `axes[j]` at digit `j`. */
  function RowAt<T>(axes: seq<seq<T>>, k: nat): (row: seq<T>)
    requires k < StepsProduct(Lengths(axes))
    ensures |row| == |axes|
  {
    var d := Decompose(k, Lengths(axes));
    seq(|axes|, j requires 0 <= j < |axes| => axes[j][d[j]])
  }

  /** The nested-loop product and the mixed-radix lookup agree row by row:
      the product has one row per scan index and row `k` is `RowAt(axes, k)`. */
  lemma {:induction false} ProductRows<T>(axes: seq<seq<T>>)
    ensures |CartesianProduct(axes)| == StepsProduct(Lengths(axes))
    ensures forall k :: 0 <= k < |CartesianProduct(axes)| ==>
              CartesianProduct(axes)[k] == RowAt(axes, k)
    decreases |axes|
  {
    if |axes| > 0 {
      var tail := axes[1..];
      var P := CartesianProduct(tail);
      ProductRows(tail);
      assert Lengths(axes)[1..] == Lengths(tail);
      var R := |P|;
      SpreadLength(axes[0], P);
      forall k | 0 <= k < |CartesianProduct(axes)|
        ensures CartesianProduct(axes)[k] == RowAt(axes, k)
      {
        ProductRowStep(axes, k);
      }
    }
  }

  /** One step of `ProductRows`: row `k` of the product of `axes`, given the
      rows of the product of the remaining axes. */
  lemma ProductRowStep<T>(axes: seq<seq<T>>, k: nat)
    requires |axes| > 0
    requires |CartesianProduct(axes[1..])| == StepsProduct(Lengths(axes[1..]))
    requires forall c :: 0 <= c < |CartesianProduct(axes[1..])| ==>
               CartesianProduct(axes[1..])[c] == RowAt(axes[1..], c)
    requires k < |axes[0]| * |CartesianProduct(axes[1..])|
    ensures k < StepsProduct(Lengths(axes))
    ensures k < |CartesianProduct(axes)|
    ensures CartesianProduct(axes)[k] == RowAt(axes, k)
  {
    var tail := axes[1..];
    var P := CartesianProduct(tail);
    LengthsProduct(axes);
    var i, c := SplitIndex(k, |axes[0]|, |P|);
    SpreadAt(axes[0], P, i, c);
    assert CartesianProduct(axes) == Spread(axes[0], P);
    DecomposeCons(k, Lengths(axes), i, c);
    RowAtCons(axes, k, i, c);
  }

  /** The product of the axis lengths is the first length times the rest. */
  lemma LengthsProduct<T>(axes: seq<seq<T>>)
    requires |axes| > 0
    ensures Lengths(axes)[1..] == Lengths(axes[1..])
    ensures StepsProduct(Lengths(axes)) == |axes[0]| * StepsProduct(Lengths(axes[1..]))
  {
    assert Lengths(axes)[1..] == Lengths(axes[1..]);
  }

  /** A scan index below `a * r` splits into a block `i < a` and an offset
      `c < r` within the block. */
  lemma SplitIndex(k: nat, a: nat, r: nat) returns (i: nat, c: nat)
    requires k < a * r
    ensures i < a && c < r && k == i * r + c
    ensures i == k / r && c == k % r
  {
    Arith.FactorsPositive(k, a, r);
    Arith.DivMod(k, r);
    Arith.DivBelow(k, a, r);
    i, c := k / r, k % r;
  }

  /** The leading digit of a scan index is its block, the remaining digits
      those of its offset. */
  lemma DecomposeCons(k: nat, steps: seq<nat>, i: nat, c: nat)
    requires |steps| > 0 && k < StepsProduct(steps)
    requires i == k / StepsProduct(steps[1..]) && c == k % StepsProduct(steps[1..])
    requires c < StepsProduct(steps[1..])
    ensures Decompose(k, steps) == [i] + Decompose(c, steps[1..])
  {
  }

  /** Row lookup peels off the first axis along with the leading digit. */
  lemma RowAtCons<T>(axes: seq<seq<T>>, k: nat, i: nat, c: nat)
    requires |axes| > 0 && k < StepsProduct(Lengths(axes)) && c < StepsProduct(Lengths(axes[1..]))
    requires Lengths(axes)[1..] == Lengths(axes[1..])
    requires Decompose(k, Lengths(axes)) == [i] + Decompose(c, Lengths(axes[1..]))
    ensures i < |axes[0]|
    ensures RowAt(axes, k) == [axes[0][i]] + RowAt(axes[1..], c)
  {
    var row := RowAt(axes, k);
    var expected := [axes[0][i]] + RowAt(axes[1..], c);
    assert Decompose(k, Lengths(axes))[0] == i;
    forall j | 0 <= j < |row|
      ensures row[j] == expected[j]
    {
      if j > 0 {
        assert axes[1..][j - 1] == axes[j];
      }
    }
  }

  /** `[np.arange(n) for n in steps]`: each axis replaced by its own indices. */
  function IndexAxes(steps: seq<nat>): (axes: seq<seq<nat>>)
    ensures Lengths(axes) == steps
  {
    seq(|steps|, j requires 0 <= j < |steps| => Range(steps[j]))
  }

  /** `list(product(*[np.arange(n) for n in steps]))`. */
  function IndexGrid(steps: seq<nat>): seq<seq<nat>> {
    CartesianProduct(IndexAxes(steps))
  }

  /** The index grid has one row per scan index, and row `k` is the
      mixed-radix decomposition of `k`: every valid index tuple appears once,
      in increasing lexicographic order, the last axis varying fastest. */
  lemma IndexGridRows(steps: seq<nat>)
    ensures |IndexGrid(steps)| == StepsProduct(steps)
    ensures forall k :: 0 <= k < StepsProduct(steps) ==> IndexGrid(steps)[k] == Decompose(k, steps)
  {
    var axes := IndexAxes(steps);
    ProductRows(axes);
    forall k | 0 <= k < StepsProduct(steps)
      ensures IndexGrid(steps)[k] == Decompose(k, steps)
    {
      assert RowAt(axes, k) == Decompose(k, steps);
    }
  }

  /** Rows of the index grid come in strictly increasing lexicographic order. */
  lemma IndexGridOrdered(steps: seq<nat>, k: nat, k': nat)
    requires k < k' < StepsProduct(steps)
    ensures LexLess(Decompose(k, steps), Decompose(k', steps))
  {
    ComposeDecompose(k, steps);
    ComposeDecompose(k', steps);
    ComposeOrder(Decompose(k, steps), Decompose(k', steps), steps);
  }

  /** Every valid index tuple is a row of the index grid, at its composed index. */
  lemma IndexGridComplete(steps: seq<nat>, d: seq<nat>)
    requires ValidDigits(d, steps)
    ensures Compose(d, steps) < |IndexGrid(steps)|
    ensures IndexGrid(steps)[Compose(d, steps)] == d
  {
    IndexGridRows(steps);
    DecomposeCompose(d, steps);
  }

  /** The positions grid is parallel to the index grid: coordinate `j` of row
      `k` is the position of axis `j` at the index the index grid records. */
  lemma ProductParallel<T>(axes: seq<seq<T>>, k: nat, j: nat)
    requires k < |CartesianProduct(axes)| && j < |axes|
    ensures k < |IndexGrid(Lengths(axes))|
    ensures |CartesianProduct(axes)[k]| == |axes| == |IndexGrid(Lengths(axes))[k]|
    ensures IndexGrid(Lengths(axes))[k][j] < |axes[j]|
    ensures CartesianProduct(axes)[k][j] == axes[j][IndexGrid(Lengths(axes))[k][j]]
  {
    ProductRows(axes);
    IndexGridRows(Lengths(axes));
  }

  /** The last axis varies fastest: when the last digit of row `k` is not yet
      at its maximum, row `k + 1` differs from row `k` only by that digit. */
  lemma LastAxisFastest(steps: seq<nat>, k: nat)
    requires |steps| > 0 && k < StepsProduct(steps)
    requires Decompose(k, steps)[|steps| - 1] + 1 < steps[|steps| - 1]
    ensures k + 1 < StepsProduct(steps)
    ensures Decompose(k + 1, steps)
         == Decompose(k, steps)[|steps| - 1 := Decompose(k, steps)[|steps| - 1] + 1]
  {
    var d := Decompose(k, steps);
    var d' := d[|steps| - 1 := d[|steps| - 1] + 1];
    ComposeDecompose(k, steps);
    ComposeLastDigit(d, steps);
    DecomposeCompose(d', steps);
  }

  /** Raising the last digit by one raises the composed index by one. */
  lemma {:induction false} ComposeLastDigit(d: seq<nat>, steps: seq<nat>)
    requires |steps| > 0 && ValidDigits(d, steps)
    requires d[|steps| - 1] + 1 < steps[|steps| - 1]
    ensures ValidDigits(d[|steps| - 1 := d[|steps| - 1] + 1], steps)
    ensures Compose(d[|steps| - 1 := d[|steps| - 1] + 1], steps) == Compose(d, steps) + 1
    decreases |steps|
  {
    var d' := d[|steps| - 1 := d[|steps| - 1] + 1];
    assert ValidDigits(d[1..], steps[1..]);
    if |steps| > 1 {
      assert d'[1..] == d[1..][|steps| - 2 := d[1..][|steps| - 2] + 1];
      ComposeLastDigit(d[1..], steps[1..]);
    } else {
      assert d'[1..] == [] && d[1..] == [];
    }
  }
}
