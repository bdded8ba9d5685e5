/** `ScannerManager.makeSnake2D`: on a flattened `L1 x L2` grid, swap the first
    and last entries of every odd row, using numpy's fancy-index assignment
    `arr[[start, end]] = arr[[end, start]]`. */
module Snake {
  import opened Outcomes
  import opened Seqs
  import Arith

  /** `a[[x, y]] = a[[y, x]]`: the right-hand side is read before either
      element is written. */
  function Swap<T>(a: seq<T>, x: nat, y: nat): (r: seq<T>)
    requires x < |a| && y < |a|
    ensures |r| == |a|
    ensures multiset(r) == multiset(a)
    ensures r[x] == a[y] && r[y] == a[x]
    ensures forall k :: 0 <= k < |a| && k != x && k != y ==> r[k] == a[k]
  {
    if x == y then a
    else
      var r := a[x := a[y]][y := a[x]];
      assert multiset(a[x := a[y]]) == multiset(a) - multiset{a[x]} + multiset{a[y]};
      r
  }

  /** `start = (2*i+1)*L2`: the first entry of odd row `2i+1`. */
  function RowStart(i: nat, L2: int): int {
    (2 * i + 1) * L2
  }

  /** `end = start + L2 - 1`: the last entry of odd row `2i+1`. */
  function RowEnd(i: nat, L2: int): int {
    RowStart(i, L2) + L2 - 1
  }

  /** Odd rows further down start after the end of the current one. */
  lemma RowsAdvance(i: nat, j: nat, L2: int)
    requires 1 <= L2 && i < j
    ensures 0 <= RowStart(i, L2) <= RowEnd(i, L2) < RowStart(j, L2) <= RowEnd(j, L2)
  {
    Arith.MulLeMono(2 * i + 3, 2 * j + 1, L2);
    Arith.MulSucc(2 * i + 1, L2);
    Arith.MulSucc(2 * i + 2, L2);
  }

  /** Iterations `i .. m - 1` of `for i in range(m)`, each swapping the two
      ends of odd row `2i+1`. */
  function SnakeLoop<T>(a: seq<T>, i: nat, m: int, L2: int): (r: Result<seq<T>>)
    ensures r.Ok? ==> |r.value| == |a| && multiset(r.value) == multiset(a)
    ensures 1 <= L2 ==> (r.Ok? <==> (m <= i || 2 * m * L2 <= |a|))
    ensures 1 <= L2 && r.Ok? ==>
              forall k :: 0 <= k < |a| ==>
                SnakePartner(k, i, m, L2) < |a| && r.value[k] == a[SnakePartner(k, i, m, L2)]
    decreases m - i
  {
    if m <= i then
      Ok(a)
    else
      match (PyIndex(RowStart(i, L2), |a|), PyIndex(RowEnd(i, L2), |a|))
      case (Some(x), Some(y)) =>
        var b := Swap(a, x, y);
        var r := SnakeLoop(b, i + 1, m, L2);
        if 1 <= L2 then
          SnakeStepBounds(i, m, L2, |a|);
          if r.Ok? then
            PartnersInGrid(i, m, L2, |a|);
            SnakeStep(a, b, r.value, i, m, L2);
            r
          else r
        else r
      case _ =>
        if 1 <= L2 then
          SnakeStepBounds(i, m, L2, |a|);
          Err(IndexError)
        else Err(IndexError)
  }

  /** `makeSnake2D(arr, L1, L2)`. Python's `L1 // 2` is floor division, which
      for the positive divisor 2 agrees with Dafny's `/`. */
  function MakeSnake2D<T>(arr: seq<T>, L1: int, L2: int): (r: Result<seq<T>>)
    ensures r.Ok? ==> |r.value| == |arr| && multiset(r.value) == multiset(arr)
    ensures 1 <= L2 ==> (r.Ok? <==> (L1 / 2 <= 0 || 2 * (L1 / 2) * L2 <= |arr|))
    ensures 1 <= L2 && r.Ok? ==>
              forall k :: 0 <= k < |arr| ==>
                SnakePartner(k, 0, L1 / 2, L2) < |arr| && r.value[k] == arr[SnakePartner(k, 0, L1 / 2, L2)]
  {
    SnakeLoop(arr, 0, L1 / 2, L2)
  }

  /** Where entry `k` comes from once the ends of odd rows `2i+1`,
      `lo <= i < hi`, have been exchanged: the other end of its row if it is
      one of those ends, itself otherwise. */
  function SnakePartner(k: nat, lo: nat, hi: int, L2: int): (p: nat)
    requires 1 <= L2
    decreases hi - lo
  {
    if hi <= lo then k
    else if k == RowStart(lo, L2) then RowEnd(lo, L2)
    else if k == RowEnd(lo, L2) then RowStart(lo, L2)
    else SnakePartner(k, lo + 1, hi, L2)
  }

  /** When the loop's swaps fit in the grid, every partner lies in the grid. */
  lemma PartnersInGrid(lo: nat, hi: int, L2: int, n: nat)
    requires 1 <= L2 && (hi <= lo || 2 * hi * L2 <= n)
    ensures forall k :: 0 <= k < n ==> SnakePartner(k, lo, hi, L2) < n
  {
    forall k | 0 <= k < n
      ensures SnakePartner(k, lo, hi, L2) < n
    {
      PartnerBelow(k, lo, hi, L2);
      if lo < hi {
        SnakeStepBounds(hi - 1, hi, L2, n);
      }
    }
  }

  lemma {:induction false} PartnerBelow(k: nat, lo: nat, hi: int, L2: int)
    requires 1 <= L2
    ensures var p := SnakePartner(k, lo, hi, L2);
      p == k || (lo < hi && p <= RowEnd(hi - 1, L2))
    decreases hi - lo
  {
    if lo < hi {
      PartnerBelow(k, lo + 1, hi, L2);
      if lo < hi - 1 {
        RowsAdvance(lo, hi - 1, L2);
      }
    }
  }

  /** Entries before the first snaked row stay put, and a moved entry lands
      at or after that row's start. */
  lemma {:induction false} PartnerRange(k: nat, lo: nat, hi: int, L2: int)
    requires 1 <= L2
    ensures SnakePartner(k, lo, hi, L2) == k || RowStart(lo, L2) <= SnakePartner(k, lo, hi, L2)
    ensures k < RowStart(lo, L2) ==> SnakePartner(k, lo, hi, L2) == k
    decreases hi - lo
  {
    RowsAdvance(lo, lo + 1, L2);
    if lo < hi {
      PartnerRange(k, lo + 1, hi, L2);
    }
  }

  /** Pairing is symmetric: the partner's partner is the entry itself. */
  lemma {:induction false} PartnerInvolution(k: nat, lo: nat, hi: int, L2: int)
    requires 1 <= L2
    ensures SnakePartner(SnakePartner(k, lo, hi, L2), lo, hi, L2) == k
    decreases hi - lo
  {
    if lo < hi {
      RowsAdvance(lo, lo + 1, L2);
      var x, y := RowStart(lo, L2), RowEnd(lo, L2);
      if k != x && k != y {
        var p := SnakePartner(k, lo + 1, hi, L2);
        PartnerRange(k, lo + 1, hi, L2);
        PartnerInvolution(k, lo + 1, hi, L2);
        assert p != x && p != y;
      }
    }
  }

  /** The swap of iteration `i` stays inside the grid exactly when the whole
      remaining loop does. */
  lemma SnakeStepBounds(i: nat, m: int, L2: int, n: nat)
    requires 1 <= L2 && i < m
    ensures 0 <= RowStart(i, L2) <= RowEnd(i, L2)
    ensures RowEnd(i, L2) < n <==> (2 * i + 2) * L2 <= n
    ensures 2 * m * L2 <= n ==> (2 * i + 2) * L2 <= n
    ensures i + 1 == m ==> 2 * m * L2 == (2 * i + 2) * L2
    ensures i + 1 < m ==> (2 * i + 2) * L2 <= 2 * m * L2
  {
    RowsAdvance(i, i + 1, L2);
    Arith.MulSucc(2 * i + 1, L2);
    Arith.MulLeMono(2 * i + 2, 2 * m, L2);
  }

  /** One loop iteration: exchanging the ends of row `2i+1` and then running
      the rest of the loop composes to the partner map starting at `i`. */
  lemma SnakeStep<T>(a: seq<T>, b: seq<T>, r: seq<T>, i: nat, m: int, L2: int)
    requires 1 <= L2 && i < m
    requires 0 <= RowStart(i, L2) && RowEnd(i, L2) < |a|
    requires b == Swap(a, RowStart(i, L2), RowEnd(i, L2))
    requires |r| == |b|
    requires forall k :: 0 <= k < |a| ==> SnakePartner(k, i, m, L2) < |a|
    requires forall k :: 0 <= k < |b| ==>
               SnakePartner(k, i + 1, m, L2) < |b| && r[k] == b[SnakePartner(k, i + 1, m, L2)]
    ensures forall k :: 0 <= k < |a| ==> r[k] == a[SnakePartner(k, i, m, L2)]
  {
    var x, y := RowStart(i, L2), RowEnd(i, L2);
    RowsAdvance(i, i + 1, L2);
    forall k | 0 <= k < |a|
      ensures r[k] == a[SnakePartner(k, i, m, L2)]
    {
      PartnerRange(k, i + 1, m, L2);
      var p := SnakePartner(k, i + 1, m, L2);
      if k == x || k == y {
        assert p == k;
      } else {
        assert p != x && p != y;
      }
    }
  }

  /** With a row length of 0, `start` is 0 and `end` is -1, so every
      iteration exchanges the first and last entries: an even number of
      rounds leaves the array as it was, an odd number swaps its ends, and
      an empty array fails on the first round. */
  lemma SnakeFlatRows<T>(arr: seq<T>, L1: int)
    ensures MakeSnake2D(arr, L1, 0)
         == if L1 / 2 <= 0 then Ok(arr)
            else if |arr| == 0 then Err(IndexError)
            else Ok(Flip(arr, L1 / 2))
  {
    assert MakeSnake2D(arr, L1, 0) == SnakeLoop(arr, 0, L1 / 2, 0);
    if L1 / 2 > 0 {
      if |arr| > 0 {
        SnakeLoopFlat(arr, 0, L1 / 2);
      } else {
        FlatEmpty(arr, 0, L1 / 2);
      }
    }
  }

  /** An empty array has no entry 0 to swap. */
  lemma FlatEmpty<T>(a: seq<T>, i: nat, m: int)
    requires |a| == 0 && i < m
    ensures SnakeLoop(a, i, m, 0) == Err(IndexError)
  {
    assert PyIndex(RowStart(i, 0), 0) == None;
  }

  /** The array after `r` rounds of exchanging its first and last entries:
      only the parity of `r` matters. */
  function Flip<T>(a: seq<T>, r: nat): (b: seq<T>)
    requires |a| > 0
    ensures |b| == |a| && multiset(b) == multiset(a)
  {
    if r % 2 == 0 then a else Swap(a, 0, |a| - 1)
  }

  /** One more round flips the parity. */
  lemma FlipStep<T>(a: seq<T>, r: nat)
    requires |a| > 0 && r >= 1
    ensures Flip(a, r) == Flip(Swap(a, 0, |a| - 1), r - 1)
  {
    if r % 2 == 0 {
      assert (r - 1) % 2 == 1;
      SwapTwice(a, 0, |a| - 1);
    } else {
      assert (r - 1) % 2 == 0;
    }
  }

  lemma {:induction false} SnakeLoopFlat<T>(a: seq<T>, i: nat, m: int)
    requires |a| > 0
    ensures SnakeLoop(a, i, m, 0) == Ok(Flip(a, if m <= i then 0 else m - i))
    decreases m - i
  {
    if i < m {
      FlatRound(a, i, m);
      SnakeLoopFlat(Swap(a, 0, |a| - 1), i + 1, m);
      FlipStep(a, m - i);
    }
  }

  /** One round with row length 0 exchanges the first and last entries. */
  lemma FlatRound<T>(a: seq<T>, i: nat, m: int)
    requires |a| > 0 && i < m
    ensures SnakeLoop(a, i, m, 0) == SnakeLoop(Swap(a, 0, |a| - 1), i + 1, m, 0)
  {
    assert PyIndex(RowStart(i, 0), |a|) == Some(0);
    assert PyIndex(RowEnd(i, 0), |a|) == Some(|a| - 1);
  }

  /** Exchanging the same two entries twice restores the array. */
  lemma SwapTwice<T>(a: seq<T>, x: nat, y: nat)
    requires x < |a| && y < |a|
    ensures Swap(Swap(a, x, y), x, y) == a
  {
    var b := Swap(Swap(a, x, y), x, y);
    assert forall k :: 0 <= k < |a| ==> b[k] == a[k];
  }

  /** Snaking twice restores the grid (for rows of at least one entry). */
  lemma SnakeTwice<T>(arr: seq<T>, L1: int, L2: int)
    requires 1 <= L2 && MakeSnake2D(arr, L1, L2).Ok?
    ensures MakeSnake2D(MakeSnake2D(arr, L1, L2).value, L1, L2) == Ok(arr)
  {
    var m := L1 / 2;
    var once := MakeSnake2D(arr, L1, L2).value;
    var twice := MakeSnake2D(once, L1, L2);
    assert |once| == |arr|;
    assert twice.Ok?;
    var back := twice.value;
    assert |back| == |arr|;
    forall k | 0 <= k < |arr|
      ensures back[k] == arr[k]
    {
      var p := SnakePartner(k, 0, m, L2);
      assert back[k] == once[p];
      assert once[p] == arr[SnakePartner(p, 0, m, L2)];
      PartnerInvolution(k, 0, m, L2);
    }
    assert back == arr;
  }

  /** Each snaked odd row has its two ends exchanged. */
  lemma SnakeSwapsRowEnds<T>(arr: seq<T>, L1: int, L2: int, i: nat)
    requires 1 <= L2 && MakeSnake2D(arr, L1, L2).Ok? && i < L1 / 2
    ensures 0 <= RowStart(i, L2) <= RowEnd(i, L2) < |arr|
    ensures MakeSnake2D(arr, L1, L2).value[RowStart(i, L2)] == arr[RowEnd(i, L2)]
    ensures MakeSnake2D(arr, L1, L2).value[RowEnd(i, L2)] == arr[RowStart(i, L2)]
  {
    SnakeStepBounds(i, L1 / 2, L2, |arr|);
    PartnerAtRowEnds(i, 0, L1 / 2, L2);
  }

  lemma {:induction false} PartnerAtRowEnds(i: nat, lo: nat, hi: int, L2: int)
    requires 1 <= L2 && lo <= i < hi
    ensures 0 <= RowStart(i, L2) <= RowEnd(i, L2)
    ensures SnakePartner(RowStart(i, L2), lo, hi, L2) == RowEnd(i, L2)
    ensures SnakePartner(RowEnd(i, L2), lo, hi, L2) == RowStart(i, L2)
    decreases i - lo
  {
    RowsAdvance(i, i + 1, L2);
    if lo < i {
      RowsAdvance(lo, i, L2);
      PartnerAtRowEnds(i, lo + 1, hi, L2);
    }
  }

  /** Every entry that is not an end of a snaked odd row keeps its place. */
  lemma {:induction false} PartnerElsewhere(k: nat, lo: nat, hi: int, L2: int)
    requires 1 <= L2
    requires forall i: nat :: lo <= i < hi ==> k != RowStart(i, L2) && k != RowEnd(i, L2)
    ensures SnakePartner(k, lo, hi, L2) == k
    decreases hi - lo
  {
    if lo < hi {
      PartnerElsewhere(k, lo + 1, hi, L2);
    }
  }

  lemma SnakeKeepsOthers<T>(arr: seq<T>, L1: int, L2: int, k: nat)
    requires 1 <= L2 && MakeSnake2D(arr, L1, L2).Ok? && k < |arr|
    requires forall i: nat :: i < L1 / 2 ==> k != RowStart(i, L2) && k != RowEnd(i, L2)
    ensures MakeSnake2D(arr, L1, L2).value[k] == arr[k]
  {
    PartnerElsewhere(k, 0, L1 / 2, L2);
  }
}
