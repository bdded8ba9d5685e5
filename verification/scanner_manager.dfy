/** The scan manager: a list of actuators, one sequential sub-scanner per
    actuator in the same order, and the `n_steps` value shown in the settings
    tree. It combines the sub-scanners into the N-dimensional trajectory,
    offers every ordering of the actuator titles, reorders the axes, keeps
    the actuator list in sync with a requested list, and refuses scans above
    a step limit. */
module ScannerManager {
  import opened Outcomes
  import opened Seqs
  import opened Product
  import opened Orderings
  import opened SequentialScanner

  /** `nSteps` is the read-only `n_steps` setting, refreshed by
      `_update_steps` whenever either list is resized. */
  datatype Manager<T> = Manager(actuators: seq<Actuator>, scanners: seq<Scanner<T>>, nSteps: nat)

  // ----- Bookkeeping -----

  /** The actuator of every scanner, in scanner order. */
  function ActuatorsOf<T>(scanners: seq<Scanner<T>>): (r: seq<Actuator>)
    ensures |r| == |scanners|
    ensures forall j :: 0 <= j < |scanners| ==> r[j] == scanners[j].actuator
  {
    seq(|scanners|, j requires 0 <= j < |scanners| => scanners[j].actuator)
  }

  /** `[act.title for act in actuators]`. */
  function Titles(actuators: seq<Actuator>): (r: seq<string>)
    ensures |r| == |actuators|
    ensures forall j :: 0 <= j < |actuators| ==> r[j] == actuators[j].title
  {
    seq(|actuators|, j requires 0 <= j < |actuators| => actuators[j].title)
  }

  /** Scanner `j` belongs to actuator `j`. */
  predicate Paired<T>(m: Manager<T>) {
    ActuatorsOf(m.scanners) == m.actuators
  }

  /** The state every public operation is meant to keep: actuators and
      scanners paired, no actuator twice, and `n_steps` up to date. */
  predicate Valid<T>(m: Manager<T>) {
    Paired(m) && Distinct(m.actuators) && m.nSteps == TotSteps(m)
  }

  // ----- Step counts -----

  /** The `steps` property: every scanner's `n_steps`. */
  function Steps<T>(m: Manager<T>): (r: seq<nat>)
    ensures |r| == |m.scanners|
    ensures forall j :: 0 <= j < |m.scanners| ==> r[j] == NSteps(m.scanners[j])
  {
    seq(|m.scanners|, j requires 0 <= j < |m.scanners| => NSteps(m.scanners[j]))
  }

  /** The `tot_steps` property: `np.prod(steps)`, which is 1 for no scanners
      and 0 exactly when some axis has no positions. */
  function TotSteps<T>(m: Manager<T>): (t: nat)
    ensures |m.scanners| == 0 ==> t == 1
    ensures t == 0 <==> exists j :: 0 <= j < |m.scanners| && NSteps(m.scanners[j]) == 0
  {
    StepsProduct(Steps(m))
  }

  /** The `n_steps` loop of the other side of the merge: start from 1 and
      multiply in each scanner's count. It agrees with `tot_steps`. */
  method CountSteps<T>(m: Manager<T>) returns (steps: nat)
    ensures steps == TotSteps(m)
  {
    steps := 1;
    var i := 0;
    while i < |m.scanners|
      invariant 0 <= i <= |m.scanners|
      invariant steps == StepsProduct(Steps(m)[..i])
    {
      StepsProductSnoc(Steps(m)[..i], NSteps(m.scanners[i]));
      assert Steps(m)[..i + 1] == Steps(m)[..i] + [NSteps(m.scanners[i])];
      steps := steps * NSteps(m.scanners[i]);
      i := i + 1;
    }
    assert Steps(m)[..i] == Steps(m);
  }

  /** `_update_steps`: copy the current total into the `n_steps` setting. */
  function UpdateSteps<T>(m: Manager<T>): (r: Manager<T>)
    ensures r.actuators == m.actuators && r.scanners == m.scanners
    ensures r.nSteps == TotSteps(r)
  {
    m.(nSteps := TotSteps(m))
  }

  /** The total depends on the scanners alone. */
  lemma SameScannersSameTotal<T>(a: Manager<T>, b: Manager<T>)
    requires a.scanners == b.scanners
    ensures TotSteps(a) == TotSteps(b)
  {
    assert Steps(a) == Steps(b);
  }

  /** Reordering the scanners does not change the total. */
  lemma TotStepsReorder<T>(m: Manager<T>, ord: seq<nat>)
    requires IsIndexPermutation(ord, |m.scanners|)
    ensures InBounds(ord, |m.scanners|)
    ensures TotSteps(m.(scanners := Select(m.scanners, ord))) == TotSteps(m)
  {
    IndexPermutationShape(ord, |m.scanners|);
    var m' := m.(scanners := Select(m.scanners, ord));
    assert Steps(m') == Select(Steps(m), ord);
    SelectByPermutation(Steps(m), ord);
    StepsProductPermutation(Steps(m'), Steps(m));
  }

  // ----- Trajectory -----

  /** One positions draw per scanner, each fitting its scanner. */
  predicate DrawsFit<T>(m: Manager<T>, draws: seq<seq<nat>>) {
    |draws| == |m.scanners| && forall j :: 0 <= j < |draws| ==> DrawFits(m.scanners[j], draws[j])
  }

  /** `[scan.positions for scan in self._scanners]`. */
  function AxisPositions<T>(m: Manager<T>, draws: seq<seq<nat>>, round: T -> T): (axes: seq<seq<T>>)
    requires DrawsFit(m, draws)
    ensures |axes| == |m.scanners|
    ensures forall j :: 0 <= j < |axes| ==> axes[j] == Positions(m.scanners[j], draws[j], round)
    ensures Lengths(axes) == Steps(m)
  {
    seq(|m.scanners|, j requires 0 <= j < |m.scanners| => Positions(m.scanners[j], draws[j], round))
  }

  /** `get_indexing`: the product of `np.arange(n_steps)` over the scanners.
      Row `k` is the mixed-radix decomposition of `k`. */
  function GetIndexing<T>(m: Manager<T>): (grid: seq<seq<nat>>)
    ensures |grid| == TotSteps(m)
    ensures forall k :: 0 <= k < |grid| ==> grid[k] == Decompose(k, Steps(m))
  {
    IndexGridRows(Steps(m));
    IndexGrid(Steps(m))
  }

  /** `get_positions`: the product of the scanners' positions, one row per
      scan step and one coordinate per scanner. */
  function GetPositions<T>(m: Manager<T>, draws: seq<seq<nat>>, round: T -> T): (grid: seq<seq<T>>)
    requires DrawsFit(m, draws)
    ensures |grid| == TotSteps(m)
    ensures forall k :: 0 <= k < |grid| ==> |grid[k]| == |m.scanners|
  {
    var axes := AxisPositions(m, draws, round);
    ProductRows(axes);
    CartesianProduct(axes)
  }

  /** The positions grid is parallel to the index grid: coordinate `j` of
      step `k` is scanner `j`'s position at the index `get_indexing`
      records for that step. */
  lemma GetPositionsParallel<T>(m: Manager<T>, draws: seq<seq<nat>>, round: T -> T, k: nat, j: nat)
    requires DrawsFit(m, draws)
    requires k < TotSteps(m) && j < |m.scanners|
    ensures GetIndexing(m)[k][j] < NSteps(m.scanners[j])
    ensures GetPositions(m, draws, round)[k][j]
         == Positions(m.scanners[j], draws[j], round)[GetIndexing(m)[k][j]]
  {
    var axes := AxisPositions(m, draws, round);
    ProductRows(axes);
    ProductParallel(axes, k, j);
  }

  /** Steps come in increasing lexicographic order of their indices, and
      the last scanner moves first. */
  lemma GetIndexingOrder<T>(m: Manager<T>, k: nat, k': nat)
    requires k < k' < TotSteps(m)
    ensures LexLess(GetIndexing(m)[k], GetIndexing(m)[k'])
  {
    IndexGridOrdered(Steps(m), k, k');
  }

  /** `positions_at`: the (title, coordinate) pairs of one step, the index
      read the Python way (negative counts from the end). An index outside
      the scan, or more scanners than actuators, raises IndexError. */
  function PositionsAt<T>(m: Manager<T>, index: int, draws: seq<seq<nat>>, round: T -> T): (r: Result<seq<(string, T)>>)
    requires DrawsFit(m, draws)
    ensures r.Ok? <==> PyIndex(index, TotSteps(m)).Some? && |m.scanners| <= |m.actuators|
    ensures r.Err? ==> r.error == IndexError
    ensures r.Ok? ==> |r.value| == |m.scanners|
    ensures r.Ok? ==> forall j :: 0 <= j < |r.value| ==> r.value[j].0 == m.actuators[j].title
  {
    var grid := GetPositions(m, draws, round);
    match PyIndex(index, |grid|)
    case None => Err(IndexError)
    case Some(k) =>
      if |grid[k]| > |m.actuators| then Err(IndexError)
      else Ok(seq(|grid[k]|, j requires 0 <= j < |grid[k]| => (m.actuators[j].title, grid[k][j])))
  }

  /** The coordinate `positions_at` reports for scanner `j` is that
      scanner's position at digit `j` of the mixed-radix decomposition of
      the step. */
  lemma PositionsAtCoordinates<T>(m: Manager<T>, index: int, draws: seq<seq<nat>>, round: T -> T, j: nat)
    requires DrawsFit(m, draws)
    requires PositionsAt(m, index, draws, round).Ok? && j < |m.scanners|
    ensures PyIndex(index, TotSteps(m)).Some?
    ensures Decompose(PyIndex(index, TotSteps(m)).value, Steps(m))[j] < NSteps(m.scanners[j])
    ensures PositionsAt(m, index, draws, round).value[j].1
         == Positions(m.scanners[j], draws[j], round)[Decompose(PyIndex(index, TotSteps(m)).value, Steps(m))[j]]
  {
    var k := PyIndex(index, TotSteps(m)).value;
    GetPositionsParallel(m, draws, round, k, j);
  }

  /** `set_scan`: refuse, changing nothing, exactly when the total exceeds
      the configured `steps_limit`; a total equal to the limit proceeds and
      refreshes `n_steps`. */
  function SetScan<T>(m: Manager<T>, limit: int): (r: (bool, Manager<T>))
    ensures r.0 <==> TotSteps(m) > limit
    ensures r.0 ==> r.1 == m
    ensures !r.0 ==> r.1.actuators == m.actuators && r.1.scanners == m.scanners
    ensures !r.0 ==> r.1.nSteps == TotSteps(m)
  {
    if TotSteps(m) > limit then (true, m) else (false, UpdateSteps(m))
  }

  /** An accepted scan leaves a paired manager with distinct actuators valid,
      whatever its `n_steps` setting held before; asking again with the same
      limit gives the same answer and changes nothing more. */
  lemma SetScanValid<T>(m: Manager<T>, limit: int)
    requires Paired(m) && Distinct(m.actuators)
    ensures !SetScan(m, limit).0 ==> Valid(SetScan(m, limit).1)
    ensures SetScan(SetScan(m, limit).1, limit) == (SetScan(m, limit).0, SetScan(m, limit).1)
  {
    SameScannersSameTotal(m, SetScan(m, limit).1);
  }

  // ----- Ordering -----

  /** `updateParamTree`: the ordering choices, one per permutation of the
      actuator indices in `itertools.permutations` order, written as titles. */
  function OrderingChoices(actuators: seq<Actuator>): (choices: seq<seq<string>>)
    ensures |choices| == Factorial(|actuators|)
    ensures forall k :: 0 <= k < |choices| ==> multiset(choices[k]) == multiset(Titles(actuators))
  {
    var n := |actuators|;
    var titles := Titles(actuators);
    PermutationsCount(Range(n));
    PermutationsRelabel(titles, Range(n));
    assert Select(titles, Range(n)) == titles;
    SelectRows(titles, Permutations(Range(n)))
  }

  /** Permuting the indices and reading off titles is the same as permuting
      the titles themselves. */
  lemma OrderingChoicesArePermutations(actuators: seq<Actuator>)
    ensures OrderingChoices(actuators) == Permutations(Titles(actuators))
  {
    var titles := Titles(actuators);
    PermutationsRelabel(titles, Range(|actuators|));
    assert Select(titles, Range(|actuators|)) == titles;
  }

  /** With distinct titles no choice is offered twice. */
  lemma OrderingChoicesDistinct(actuators: seq<Actuator>)
    requires Distinct(Titles(actuators))
    ensures Distinct(OrderingChoices(actuators))
  {
    OrderingChoicesArePermutations(actuators);
    PermutationsDistinct(Titles(actuators));
  }

  /** Every arrangement of the titles is offered. */
  lemma OrderingChoicesComplete(actuators: seq<Actuator>, q: seq<string>)
    requires multiset(q) == multiset(Titles(actuators))
    ensures q in OrderingChoices(actuators)
  {
    OrderingChoicesArePermutations(actuators);
    PermutationsComplete(Titles(actuators), q);
  }

  /** `[l2.index(item) for item in l1]`; an item missing from `l2` raises
      ValueError. */
  function OrderingIndices(l2: seq<string>, l1: seq<string>): (r: Result<seq<nat>>)
    ensures r.Ok? <==> forall i :: 0 <= i < |l1| ==> l1[i] in l2
    ensures r.Err? ==> r.error == ValueError
    ensures r.Ok? ==> |r.value| == |l1| && InBounds(r.value, |l2|)
    ensures r.Ok? ==> forall i :: 0 <= i < |l1| ==> l2[r.value[i]] == l1[i]
  {
    if |l1| == 0 then Ok([])
    else
      match IndexOf(l2, l1[0])
      case None => Err(ValueError)
      case Some(x) =>
        match OrderingIndices(l2, l1[1..])
        case Err(e) => Err(e)
        case Ok(rest) => Ok([x] + rest)
  }

  /** `updateOrdering` as evidently intended: an empty choice does nothing;
      otherwise actuators and scanners are both reordered by the same index
      list. Line 311 reorders the scanners by that list; the actuator list
      is assigned directly rather than through the property setter, as the
      other side of the merge assigns `_actuators`. Any change of length
      (a choice that leaves actuators out) refreshes `n_steps`, as the
      scanner list's `resized` signal does. */
  function UpdateOrdering<T>(m: Manager<T>, l1: seq<string>): (r: Result<Manager<T>>)
    ensures |l1| == 0 ==> r == Ok(m)
    ensures (exists i :: 0 <= i < |l1| && l1[i] !in Titles(m.actuators)) ==> r == Err(ValueError)
    ensures Paired(m) && (forall i :: 0 <= i < |l1| ==> l1[i] in Titles(m.actuators)) ==> r.Ok?
    ensures r.Ok? && |l1| > 0 ==> Titles(r.value.actuators) == l1
    ensures r.Ok? && |l1| > 0 ==> r.value.nSteps == TotSteps(r.value)
    ensures r.Ok? && Paired(m) ==> Paired(r.value)
    ensures r.Ok? && |l1| > 0 ==>
              |r.value.actuators| == |l1| && |r.value.scanners| == |l1| &&
              forall i :: 0 <= i < |l1| ==>
                exists j :: 0 <= j < |m.actuators| && j < |m.scanners| &&
                  r.value.actuators[i] == m.actuators[j] && r.value.scanners[i] == m.scanners[j]
  {
    if |l1| == 0 then Ok(m)
    else
      match OrderingIndices(Titles(m.actuators), l1)
      case Err(e) => Err(e)
      case Ok(ord) =>
        if !InBounds(ord, |m.scanners|) then Err(IndexError)
        else
          var acts, scs := Select(m.actuators, ord), Select(m.scanners, ord);
          assert forall i :: 0 <= i < |l1| ==> acts[i] == m.actuators[ord[i]] && scs[i] == m.scanners[ord[i]];
          Ok(UpdateSteps(m.(actuators := acts, scanners := scs)))
  }

  /** A chosen ordering that rearranges distinct titles gives an index
      permutation. */
  lemma OrderingIsPermutation(l2: seq<string>, l1: seq<string>)
    requires Distinct(l2) && multiset(l1) == multiset(l2)
    ensures OrderingIndices(l2, l1).Ok?
    ensures IsIndexPermutation(OrderingIndices(l2, l1).value, |l2|)
  {
    forall i | 0 <= i < |l1|
      ensures l1[i] in l2
    {
      assert l1[i] in multiset(l1);
    }
    MultisetDistinct(l2, l1);
    var ord := OrderingIndices(l2, l1).value;
    assert |l1| == |multiset(l1)| == |l2|;
    forall i, j | 0 <= i < j < |ord|
      ensures ord[i] != ord[j]
    {
      assert l2[ord[i]] == l1[i] && l2[ord[j]] == l1[j];
    }
    DistinctIndexPermutation(ord, |l2|);
  }

  /** Choosing an arrangement of the current titles keeps the manager valid,
      keeps the same actuators, and pairs each actuator with its own
      scanner in the new order. */
  lemma UpdateOrderingValid<T>(m: Manager<T>, l1: seq<string>)
    requires Valid(m) && Distinct(Titles(m.actuators))
    requires multiset(l1) == multiset(Titles(m.actuators))
    ensures UpdateOrdering(m, l1).Ok?
    ensures Valid(UpdateOrdering(m, l1).value)
    ensures multiset(UpdateOrdering(m, l1).value.actuators) == multiset(m.actuators)
    ensures multiset(UpdateOrdering(m, l1).value.scanners) == multiset(m.scanners)
    ensures UpdateOrdering(m, l1).value.nSteps == m.nSteps
  {
    OrderingIsPermutation(Titles(m.actuators), l1);
    var ord := OrderingIndices(Titles(m.actuators), l1).value;
    IndexPermutationShape(ord, |m.actuators|);
    if |l1| > 0 {
      var r := UpdateOrdering(m, l1).value;
      assert r.actuators == Select(m.actuators, ord);
      assert r.scanners == Select(m.scanners, ord);
      SelectByPermutation(m.actuators, ord);
      SelectByPermutation(m.scanners, ord);
      TotStepsReorder(m, ord);
      SameScannersSameTotal(r, m.(scanners := Select(m.scanners, ord)));
      forall i, j | 0 <= i < j < |r.actuators|
        ensures r.actuators[i] != r.actuators[j]
      {
        assert ord[i] != ord[j];
      }
    } else {
      assert |m.actuators| == |multiset(Titles(m.actuators))| == 0;
    }
  }

  /** A choice of distinct titles that leaves some actuators out keeps the
      chosen actuators with their own scanners and leaves a valid manager,
      its `n_steps` refreshed to the smaller total. */
  lemma UpdateOrderingSubsetValid<T>(m: Manager<T>, l1: seq<string>)
    requires Valid(m) && |l1| > 0 && Distinct(l1)
    requires forall i :: 0 <= i < |l1| ==> l1[i] in Titles(m.actuators)
    ensures UpdateOrdering(m, l1).Ok?
    ensures Valid(UpdateOrdering(m, l1).value)
    ensures Titles(UpdateOrdering(m, l1).value.actuators) == l1
  {
    var r := UpdateOrdering(m, l1).value;
    forall i, j | 0 <= i < j < |r.actuators|
      ensures r.actuators[i] != r.actuators[j]
    {
      assert Titles(r.actuators)[i] == l1[i] != l1[j] == Titles(r.actuators)[j];
    }
  }

  /** `updateOrdering` as written on the HEAD side: the reordered actuator
      list goes through the `actuators` property setter, while the scanners
      are reordered directly. */
  function UpdateOrderingAsWritten<T>(m: Manager<T>, l1: seq<string>, initial: Actuator -> seq<T>): Result<Manager<T>> {
    if |l1| == 0 then Ok(m)
    else
      match OrderingIndices(Titles(m.actuators), l1)
      case Err(e) => Err(e)
      case Ok(ord) =>
        var via := SetActuatorsAsWritten(m, Select(m.actuators, ord), initial);
        if !InBounds(ord, |via.scanners|) then Err(IndexError)
        else Ok(via.(scanners := Select(via.scanners, ord)))
  }

  /** The setter finds nothing to add or drop in a rearrangement of the
      current actuators, so as written the actuators keep their old order
      while the scanners take the new one. */
  lemma UpdateOrderingAsWrittenKeepsActuators<T>(m: Manager<T>, l1: seq<string>, initial: Actuator -> seq<T>)
    requires Valid(m) && Distinct(Titles(m.actuators))
    requires multiset(l1) == multiset(Titles(m.actuators))
    ensures UpdateOrderingAsWritten(m, l1, initial).Ok?
    ensures UpdateOrderingAsWritten(m, l1, initial).value.actuators == m.actuators
    ensures UpdateOrdering(m, l1).Ok?
    ensures UpdateOrderingAsWritten(m, l1, initial).value.scanners == UpdateOrdering(m, l1).value.scanners
  {
    OrderingIsPermutation(Titles(m.actuators), l1);
    if |l1| > 0 {
      var ord := OrderingIndices(Titles(m.actuators), l1).value;
      var request := Select(m.actuators, ord);
      SetterIdleOnRearrangement(m, ord, initial);
      assert SetActuatorsAsWritten(m, request, initial) == m;
    } else {
      assert |m.actuators| == |multiset(Titles(m.actuators))| == 0;
    }
  }

  /** A rearrangement of the current actuators gives the setter nothing to
      add or drop. */
  lemma SetterIdleOnRearrangement<T>(m: Manager<T>, ord: seq<nat>, initial: Actuator -> seq<T>)
    requires IsIndexPermutation(ord, |m.actuators|)
    ensures InBounds(ord, |m.actuators|)
    ensures SetActuatorsAsWritten(m, Select(m.actuators, ord), initial) == m
  {
    IndexPermutationShape(ord, |m.actuators|);
    var request := Select(m.actuators, ord);
    SelectByPermutation(m.actuators, ord);
    forall i | 0 <= i < |m.actuators|
      ensures m.actuators[i] in request
    {
      assert m.actuators[i] in multiset(request);
    }
    forall i | 0 <= i < |request|
      ensures request[i] in m.actuators
    {
      assert request[i] in multiset(m.actuators);
    }
    AppendNothing(m, request, initial);
    DropNothing(m, request, 0);
  }

  /** Two actuators titled "a" and "b", each with a one-position scanner. */
  function TwoAxes(): Manager<int> {
    var a, b := Actuator(0, "a"), Actuator(1, "b");
    Manager([a, b], [Scanner(a, [0], false, false), Scanner(b, [1], false, false)], 1)
  }

  /** Choosing the ordering ["b", "a"] on TwoAxes: as written, the
      actuators stay [a, b] while the scanners become [b's, a's], so scanner
      0 now belongs to actuator b but sits next to actuator a. The intended
      update pairs them. */
  lemma UpdateOrderingAsWrittenUnpairs(initial: Actuator -> seq<int>)
    ensures Valid(TwoAxes())
    ensures UpdateOrderingAsWritten(TwoAxes(), ["b", "a"], initial).Ok?
    ensures !Paired(UpdateOrderingAsWritten(TwoAxes(), ["b", "a"], initial).value)
    ensures UpdateOrdering(TwoAxes(), ["b", "a"]).Ok?
    ensures Paired(UpdateOrdering(TwoAxes(), ["b", "a"]).value)
    ensures Titles(UpdateOrdering(TwoAxes(), ["b", "a"]).value.actuators) == ["b", "a"]
  {
    var m := TwoAxes();
    TwoAxesValid();
    TwoAxesSwap();
    assert Range(2) == [0, 1];
    assert IsIndexPermutation([1, 0], |m.actuators|);
    SetterIdleOnRearrangement(m, [1, 0], initial);
    var w := UpdateOrderingAsWritten(m, ["b", "a"], initial).value;
    assert w.scanners == Select(m.scanners, [1, 0]);
    assert w.actuators == m.actuators;
    assert ActuatorsOf(w.scanners)[0] == m.actuators[1] != w.actuators[0];
  }

  lemma TwoAxesValid()
    ensures Valid(TwoAxes())
  {
    var m := TwoAxes();
    assert Steps(m) == [1, 1];
    var ones: seq<nat> := [1, 1];
    assert ones[1..] == [1] && ones[1..][1..] == [];
    assert StepsProduct(ones) == 1;
  }

  lemma TwoAxesSwap()
    ensures Titles(TwoAxes().actuators) == ["a", "b"]
    ensures OrderingIndices(["a", "b"], ["b", "a"]).Ok?
    ensures OrderingIndices(["a", "b"], ["b", "a"]).value == [1, 0]
  {
    TwoAxesTitles();
    var l2: seq<string> := ["a", "b"];
    LookupA(l2);
    LookupB(l2);
  }

  lemma TwoAxesTitles()
    ensures Titles(TwoAxes().actuators) == ["a", "b"]
  {
  }

  /** The single-title request ["a"] maps to index 0 of ["a", "b"]. */
  lemma LookupA(l2: seq<string>)
    requires l2 == ["a", "b"]
    ensures OrderingIndices(l2, ["a"]) == Ok([0])
  {
    assert IndexOf(l2, "a") == Some(0);
    var one: seq<string> := ["a"];
    assert one[1..] == [];
    assert OrderingIndices(l2, one[1..]) == Ok([]);
    assert [0] + [] == [0];
  }

  /** The swapped request ["b", "a"] maps to [1, 0]. */
  lemma LookupB(l2: seq<string>)
    requires l2 == ["a", "b"]
    requires OrderingIndices(l2, ["a"]) == Ok([0])
    ensures OrderingIndices(l2, ["b", "a"]) == Ok([1, 0])
  {
    assert IndexOf(l2, "b") == Some(1);
    var two: seq<string> := ["b", "a"];
    assert two[1..] == ["a"];
    assert [1] + [0] == [1, 0];
  }


  // ----- Keeping the actuator list in sync -----

  /** A freshly made sub-scanner for `act`: the default linear scan's
      positions `initial`, both toolbar actions unchecked. */
  function NewScanner<T>(act: Actuator, initial: seq<T>): (sc: Scanner<T>)
    ensures sc.actuator == act && NSteps(sc) == |initial|
    ensures !sc.randomize && !sc.backAndForth && sc.raw == initial
  {
    Scanner(act, initial, false, false)
  }

  /** One new scanner per actuator, in order. */
  function FreshScanners<T>(acts: seq<Actuator>, initial: Actuator -> seq<T>): (r: seq<Scanner<T>>)
    ensures |r| == |acts|
    ensures forall i :: 0 <= i < |acts| ==> r[i] == NewScanner(acts[i], initial(acts[i]))
  {
    seq(|acts|, i requires 0 <= i < |acts| => NewScanner(acts[i], initial(acts[i])))
  }

  /** `makeScanner`: append a new scanner for `act`; the resized list
      refreshes `n_steps`. */
  function MakeScanner<T>(m: Manager<T>, act: Actuator, initial: seq<T>): (r: Manager<T>)
    ensures r.actuators == m.actuators
    ensures |r.scanners| == |m.scanners| + 1 && r.scanners[..|m.scanners|] == m.scanners
    ensures ActuatorsOf(r.scanners) == ActuatorsOf(m.scanners) + [act]
    ensures NSteps(r.scanners[|m.scanners|]) == |initial|
    ensures r.nSteps == TotSteps(r)
  {
    UpdateSteps(m.(scanners := m.scanners + [NewScanner(act, initial)]))
  }

  /** `removeScanner` as written: walk the scanners, removing each one whose
      actuator is `act`; the list shrinks under the walk, so the scanner
      after a removed one is not examined. */
  function RemoveScanner<T>(scanners: seq<Scanner<T>>, act: Actuator): seq<Scanner<T>> {
    RemoveScannerFrom(scanners, act, 0)
  }

  function RemoveScannerFrom<T>(s: seq<Scanner<T>>, act: Actuator, i: nat): seq<Scanner<T>>
    decreases |s| - i
  {
    if i >= |s| then s
    else if s[i].actuator == act then RemoveScannerFrom(RemoveAt(s, i), act, i + 1)
    else RemoveScannerFrom(s, act, i + 1)
  }

  lemma {:induction false} RemoveScannerNone<T>(s: seq<Scanner<T>>, act: Actuator, i: nat)
    requires forall j :: i <= j < |s| ==> s[j].actuator != act
    ensures RemoveScannerFrom(s, act, i) == s
    decreases |s| - i
  {
    if i < |s| {
      RemoveScannerNone(s, act, i + 1);
    }
  }

  lemma {:induction false} RemoveScannerOne<T>(s: seq<Scanner<T>>, act: Actuator, i: nat, j: nat)
    requires i <= j < |s| && s[j].actuator == act
    requires forall l :: i <= l < |s| && l != j ==> s[l].actuator != act
    ensures RemoveScannerFrom(s, act, i) == RemoveAt(s, j)
    decreases |s| - i
  {
    if i < j {
      RemoveScannerOne(s, act, i + 1, j);
    } else {
      RemoveScannerNone(RemoveAt(s, j), act, j + 1);
    }
  }

  /** With one scanner per actuator, `removeScanner` takes out exactly the
      scanner of `act` and leaves the others in order; with none it changes
      nothing. */
  lemma RemoveScannerExact<T>(s: seq<Scanner<T>>, act: Actuator)
    requires Distinct(ActuatorsOf(s))
    ensures act !in ActuatorsOf(s) ==> RemoveScanner(s, act) == s
    ensures forall j :: 0 <= j < |s| && s[j].actuator == act ==> RemoveScanner(s, act) == RemoveAt(s, j)
  {
    if act !in ActuatorsOf(s) {
      RemoveScannerNone(s, act, 0);
    }
    forall j | 0 <= j < |s| && s[j].actuator == act
      ensures RemoveScanner(s, act) == RemoveAt(s, j)
    {
      forall l | 0 <= l < |s| && l != j
        ensures s[l].actuator != act
      {
        assert ActuatorsOf(s)[l] != ActuatorsOf(s)[j];
      }
      RemoveScannerOne(s, act, 0, j);
    }
  }

  /** First loop of the `actuators` setter: append every requested actuator
      not yet present, each with a new scanner. */
  function AppendMissing<T>(m: Manager<T>, request: seq<Actuator>, initial: Actuator -> seq<T>): Manager<T>
    decreases |request|
  {
    if |request| == 0 then m
    else
      var act := request[0];
      var m' := if act in m.actuators then m
                else MakeScanner(UpdateSteps(m.(actuators := m.actuators + [act])), act, initial(act));
      AppendMissing(m', request[1..], initial)
  }

  lemma ActuatorsOfCons<T>(s: seq<Scanner<T>>)
    requires |s| > 0
    ensures |ActuatorsOf(s)| > 0 && ActuatorsOf(s)[0] == s[0].actuator
    ensures ActuatorsOf(s)[1..] == ActuatorsOf(s[1..])
  {
  }

  lemma ActuatorsOfAppend<T>(a: seq<Scanner<T>>, b: seq<Scanner<T>>)
    ensures ActuatorsOf(a + b) == ActuatorsOf(a) + ActuatorsOf(b)
  {
  }

  lemma FreshScannersActuators<T>(acts: seq<Actuator>, initial: Actuator -> seq<T>)
    ensures ActuatorsOf(FreshScanners(acts, initial)) == acts
  {
  }

  /** One missing actuator appended: what remains to add is the rest of the
      request minus the actuators now present. */
  lemma MissingStep(request: seq<Actuator>, present: seq<Actuator>)
    requires |request| > 0 && request[0] !in present
    ensures Dedup(KeepOut(request, present))
         == [request[0]] + Dedup(KeepOut(request[1..], present + [request[0]]))
  {
    var act := request[0];
    var s := KeepOut(request, present);
    assert s == [act] + KeepOut(request[1..], present);
    assert s[0] == act && s[1..] == KeepOut(request[1..], present);
    KeepOutTwice(request[1..], present, [act]);
  }

  /** The append loop adds the requested actuators that were missing, in
      request order and once each, with one new scanner apiece; `n_steps`
      is refreshed when anything was added. */
  lemma {:induction false} AppendMissingShape<T>(m: Manager<T>, request: seq<Actuator>, initial: Actuator -> seq<T>)
    ensures AppendMissing(m, request, initial).actuators == m.actuators + Dedup(KeepOut(request, m.actuators))
    ensures AppendMissing(m, request, initial).scanners
         == m.scanners + FreshScanners(Dedup(KeepOut(request, m.actuators)), initial)
    ensures AppendMissing(m, request, initial).nSteps
         == if |Dedup(KeepOut(request, m.actuators))| == 0 then m.nSteps
            else TotSteps(AppendMissing(m, request, initial))
    decreases |request|
  {
    if |request| > 0 {
      var act := request[0];
      if act in m.actuators {
        assert KeepOut(request, m.actuators) == KeepOut(request[1..], m.actuators);
        assert AppendMissing(m, request, initial) == AppendMissing(m, request[1..], initial);
        AppendMissingShape(m, request[1..], initial);
      } else {
        var m' := MakeScanner(UpdateSteps(m.(actuators := m.actuators + [act])), act, initial(act));
        assert AppendMissing(m, request, initial) == AppendMissing(m', request[1..], initial);
        assert m'.scanners == m.scanners + [NewScanner(act, initial(act))];
        AppendMissingAdd(m, m', request, initial);
      }
    }
  }

  lemma {:induction false} AppendMissingAdd<T>(m: Manager<T>, m': Manager<T>, request: seq<Actuator>, initial: Actuator -> seq<T>)
    requires |request| > 0 && request[0] !in m.actuators
    requires m'.actuators == m.actuators + [request[0]]
    requires m'.scanners == m.scanners + [NewScanner(request[0], initial(request[0]))]
    requires m'.nSteps == TotSteps(m')
    requires AppendMissing(m, request, initial) == AppendMissing(m', request[1..], initial)
    ensures AppendMissing(m, request, initial).actuators == m.actuators + Dedup(KeepOut(request, m.actuators))
    ensures AppendMissing(m, request, initial).scanners
         == m.scanners + FreshScanners(Dedup(KeepOut(request, m.actuators)), initial)
    ensures AppendMissing(m, request, initial).nSteps == TotSteps(AppendMissing(m, request, initial))
    decreases |request|, 0
  {
    var act := request[0];
    var d := Dedup(KeepOut(request, m.actuators));
    var d' := Dedup(KeepOut(request[1..], m'.actuators));
    MissingStep(request, m.actuators);
    AppendMissingShape(m', request[1..], initial);
    AddedParts(m, m', AppendMissing(m', request[1..], initial), act, d, d', initial);
  }

  lemma AddedParts<T>(m: Manager<T>, m': Manager<T>, r: Manager<T>, act: Actuator, d: seq<Actuator>, d': seq<Actuator>,
                      initial: Actuator -> seq<T>)
    requires d == [act] + d'
    requires m'.actuators == m.actuators + [act]
    requires m'.scanners == m.scanners + [NewScanner(act, initial(act))]
    requires m'.nSteps == TotSteps(m')
    requires r.actuators == m'.actuators + d'
    requires r.scanners == m'.scanners + FreshScanners(d', initial)
    requires r.nSteps == if |d'| == 0 then m'.nSteps else TotSteps(r)
    ensures r.actuators == m.actuators + d
    ensures r.scanners == m.scanners + FreshScanners(d, initial)
    ensures r.nSteps == TotSteps(r)
  {
    FreshScannersCons(act, d', initial);
    AppendAssoc(m.actuators, [act], d');
    AppendAssoc(m.scanners, [NewScanner(act, initial(act))], FreshScanners(d', initial));
    if |d'| == 0 {
      assert FreshScanners(d', initial) == [];
      assert r.scanners == m'.scanners;
      SameScannersSameTotal(r, m');
    }
  }

  lemma FreshScannersCons<T>(act: Actuator, d: seq<Actuator>, initial: Actuator -> seq<T>)
    ensures FreshScanners([act] + d, initial) == [NewScanner(act, initial(act))] + FreshScanners(d, initial)
  {
  }

  /** When every requested actuator is present the append loop does nothing. */
  lemma {:induction false} AppendNothing<T>(m: Manager<T>, request: seq<Actuator>, initial: Actuator -> seq<T>)
    requires forall i :: 0 <= i < |request| ==> request[i] in m.actuators
    ensures AppendMissing(m, request, initial) == m
    decreases |request|
  {
    if |request| > 0 {
      AppendNothing(m, request[1..], initial);
    }
  }

  /** The scanners whose actuator is requested, in order. */
  function KeepScanners<T>(s: seq<Scanner<T>>, request: seq<Actuator>): (r: seq<Scanner<T>>)
    ensures |r| <= |s|
    ensures ActuatorsOf(r) == KeepIn(ActuatorsOf(s), request)
  {
    if |s| == 0 then []
    else
      var rest := KeepScanners(s[1..], request);
      KeepScannersStep(s, request, rest);
      if s[0].actuator in request then [s[0]] + rest else rest
  }

  /** One step of the scanner filter follows one step of the actuator filter. */
  lemma KeepScannersStep<T>(s: seq<Scanner<T>>, request: seq<Actuator>, rest: seq<Scanner<T>>)
    requires |s| > 0 && ActuatorsOf(rest) == KeepIn(ActuatorsOf(s[1..]), request)
    ensures ActuatorsOf(if s[0].actuator in request then [s[0]] + rest else rest) == KeepIn(ActuatorsOf(s), request)
  {
    ActuatorsOfCons(s);
    KeepInCons(ActuatorsOf(s), request);
    if s[0].actuator in request {
      KeptScannerFront(s[0], rest);
    }
  }

  lemma KeptScannerFront<T>(sc: Scanner<T>, rest: seq<Scanner<T>>)
    ensures ActuatorsOf([sc] + rest) == [sc.actuator] + ActuatorsOf(rest)
  {
    ActuatorsOfAppend([sc], rest);
    assert ActuatorsOf([sc]) == [sc.actuator];
  }


  lemma {:induction false} KeepScannersAppend<T>(a: seq<Scanner<T>>, b: seq<Scanner<T>>, request: seq<Actuator>)
    ensures KeepScanners(a + b, request) == KeepScanners(a, request) + KeepScanners(b, request)
  {
    if |a| == 0 {
      assert a + b == b;
    } else {
      assert (a + b)[0] == a[0];
      assert (a + b)[1..] == a[1..] + b;
      KeepScannersAppend(a[1..], b, request);
    }
  }

  lemma {:induction false} KeepScannersAll<T>(s: seq<Scanner<T>>, request: seq<Actuator>)
    requires forall i :: 0 <= i < |s| ==> s[i].actuator in request
    ensures KeepScanners(s, request) == s
  {
    if |s| > 0 {
      KeepScannersAll(s[1..], request);
    }
  }

  lemma {:induction false} KeepScannersSame<T>(s: seq<Scanner<T>>, request: seq<Actuator>)
    requires |KeepScanners(s, request)| == |s|
    ensures KeepScanners(s, request) == s
  {
    if |s| > 0 {
      assert s[0].actuator in request;
      KeepScannersSame(s[1..], request);
    }
  }

  /** The `actuators` setter as evidently intended: append the requested
      actuators that are missing (each with a new scanner), then drop every
      actuator that is not requested together with its scanner. Any
      resize refreshes `n_steps`. */
  function SetActuators<T>(m: Manager<T>, request: seq<Actuator>, initial: Actuator -> seq<T>): (r: Manager<T>)
    ensures r.actuators == KeepIn(m.actuators, request) + Dedup(KeepOut(request, m.actuators))
    ensures r.scanners == KeepScanners(m.scanners, request)
                          + FreshScanners(Dedup(KeepOut(request, m.actuators)), initial)
    ensures forall i :: 0 <= i < |request| ==> request[i] in r.actuators
    ensures forall i :: 0 <= i < |r.actuators| ==> r.actuators[i] in request
  {
    var a := AppendMissing(m, request, initial);
    var kept := a.(actuators := KeepIn(a.actuators, request), scanners := KeepScanners(a.scanners, request));
    FilterAppended(m, request, initial);
    if |kept.actuators| == |a.actuators| && |kept.scanners| == |a.scanners| then kept else UpdateSteps(kept)
  }

  /** Filtering what the append loop produced keeps the requested old
      actuators (with their scanners) and all the new ones. */
  lemma FilterAppended<T>(m: Manager<T>, request: seq<Actuator>, initial: Actuator -> seq<T>)
    ensures KeepIn(AppendMissing(m, request, initial).actuators, request)
         == KeepIn(m.actuators, request) + Dedup(KeepOut(request, m.actuators))
    ensures KeepScanners(AppendMissing(m, request, initial).scanners, request)
         == KeepScanners(m.scanners, request) + FreshScanners(Dedup(KeepOut(request, m.actuators)), initial)
    ensures forall i :: 0 <= i < |request| ==> request[i] in KeepIn(AppendMissing(m, request, initial).actuators, request)
  {
    var d := Dedup(KeepOut(request, m.actuators));
    AppendMissingShape(m, request, initial);
    FilterAddedActuators(m.actuators, d, request);
    FilterAddedScanners(m.scanners, m.actuators, d, request, initial);
    RequestedKept(m.actuators, request);
  }

  /** Appended actuators drawn from the request all survive the filter. */
  lemma FilterAddedActuators(prior: seq<Actuator>, d: seq<Actuator>, request: seq<Actuator>)
    requires d == Dedup(KeepOut(request, prior))
    ensures KeepIn(prior + d, request) == KeepIn(prior, request) + d
  {
    KeepInAppend(prior, d, request);
    KeepInAll(d, request);
  }

  /** The new scanners of appended requested actuators all survive the filter. */
  lemma FilterAddedScanners<T>(s: seq<Scanner<T>>, prior: seq<Actuator>, d: seq<Actuator>, request: seq<Actuator>,
                                initial: Actuator -> seq<T>)
    requires d == Dedup(KeepOut(request, prior))
    ensures KeepScanners(s + FreshScanners(d, initial), request) == KeepScanners(s, request) + FreshScanners(d, initial)
  {
    KeepScannersAppend(s, FreshScanners(d, initial), request);
    KeepScannersAll(FreshScanners(d, initial), request);
  }

  /** Every requested actuator is among the requested old ones or the
      appended ones. */
  lemma RequestedKept(prior: seq<Actuator>, request: seq<Actuator>)
    ensures forall i :: 0 <= i < |request| ==>
              request[i] in KeepIn(prior, request) + Dedup(KeepOut(request, prior))
  {
    var d := Dedup(KeepOut(request, prior));
    forall i | 0 <= i < |request|
      ensures request[i] in KeepIn(prior, request) + d
    {
      if request[i] in prior {
        assert request[i] in KeepIn(prior, request);
      } else {
        assert request[i] in KeepOut(request, prior);
      }
    }
  }


  /** The intended setter keeps the manager valid. */
  lemma SetActuatorsValid<T>(m: Manager<T>, request: seq<Actuator>, initial: Actuator -> seq<T>)
    requires Valid(m)
    ensures Valid(SetActuators(m, request, initial))
  {
    SetActuatorsPaired(m, request, initial);
  }

  /** From any paired state with distinct actuators, even one whose `n_steps`
      setting is stale, the intended setter keeps the pairing and the
      distinctness; it either changes nothing at all or changes the actuator
      list and refreshes `n_steps`. */
  lemma SetActuatorsPaired<T>(m: Manager<T>, request: seq<Actuator>, initial: Actuator -> seq<T>)
    requires Paired(m) && Distinct(m.actuators)
    ensures Paired(SetActuators(m, request, initial))
    ensures Distinct(SetActuators(m, request, initial).actuators)
    ensures SetActuators(m, request, initial).actuators == m.actuators ==> SetActuators(m, request, initial) == m
    ensures SetActuators(m, request, initial).actuators != m.actuators ==>
              SetActuators(m, request, initial).nSteps == TotSteps(SetActuators(m, request, initial))
  {
    var r := SetActuators(m, request, initial);
    var d := Dedup(KeepOut(request, m.actuators));
    var a := AppendMissing(m, request, initial);
    AppendMissingShape(m, request, initial);
    ActuatorsOfAppend(KeepScanners(m.scanners, request), FreshScanners(d, initial));
    FreshScannersActuators(d, initial);
    assert Paired(r);
    KeepInDistinct(m.actuators, request);
    forall i, j | 0 <= i < |KeepIn(m.actuators, request)| && 0 <= j < |d|
      ensures KeepIn(m.actuators, request)[i] != d[j]
    {
      assert d[j] in KeepOut(request, m.actuators);
    }
    AppendDistinct(KeepIn(m.actuators, request), d);
    var kept := a.(actuators := KeepIn(a.actuators, request), scanners := KeepScanners(a.scanners, request));
    if |kept.actuators| == |a.actuators| && |kept.scanners| == |a.scanners| {
      KeepScannersSame(a.scanners, request);
      if |d| == 0 {
        assert a.scanners == m.scanners;
        assert r.actuators == ActuatorsOf(m.scanners) == m.actuators;
      } else {
        assert d[0] in KeepOut(request, m.actuators);
        assert r.actuators[|KeepIn(m.actuators, request)|] == d[0];
      }
    } else if r.actuators == m.actuators {
      NothingDropped(m, request, initial, a, kept);
    }
  }

  /** When the setter leaves the actuator list as it was, nothing was
      appended or dropped, so its filter step sees no change in length. */
  lemma NothingDropped<T>(m: Manager<T>, request: seq<Actuator>, initial: Actuator -> seq<T>, a: Manager<T>, kept: Manager<T>)
    requires Paired(m)
    requires a == AppendMissing(m, request, initial)
    requires kept == a.(actuators := KeepIn(a.actuators, request), scanners := KeepScanners(a.scanners, request))
    requires SetActuators(m, request, initial).actuators == m.actuators
    ensures |kept.actuators| == |a.actuators| && |kept.scanners| == |a.scanners|
  {
    var d := Dedup(KeepOut(request, m.actuators));
    AppendMissingShape(m, request, initial);
    FilterAppended(m, request, initial);
    assert |KeepIn(m.actuators, request)| + |d| == |m.actuators|;
    assert |d| == 0;
    assert a.actuators == m.actuators;
    assert kept.actuators == a.actuators;
    ActuatorsOfAppend(KeepScanners(m.scanners, request), FreshScanners(d, initial));
  }

  /** The constructor: both lists start empty with the `n_steps` setting at
      its default 0, then the `actuators` setter takes the requested list.
      The source calls the setter as written; from the empty manager it
      agrees with the intended one (`InitAsWritten`). */
  function Init<T>(request: seq<Actuator>, initial: Actuator -> seq<T>): (r: Manager<T>)
    ensures r.actuators == Dedup(request)
    ensures r.scanners == FreshScanners(Dedup(request), initial)
  {
    var empty := Manager([], [], 0);
    KeepOutNothing(request);
    SetActuators(empty, request, initial)
  }

  /** The constructor calls the setter as written, and from the empty
      manager that agrees with the intended setter: the append loop adds
      only requested actuators, so the removal loop finds nothing to drop. */
  lemma InitAsWritten<T>(request: seq<Actuator>, initial: Actuator -> seq<T>)
    ensures Init(request, initial) == SetActuatorsAsWritten(Manager([], [], 0), request, initial)
  {
    var empty: Manager<T> := Manager([], [], 0);
    var a := AppendMissing(empty, request, initial);
    AppendMissingShape(empty, request, initial);
    KeepOutNothing(request);
    assert a.actuators == Dedup(request);
    DropNothing(a, request, 0);
    KeepInAll(a.actuators, request);
    KeepScannersAll(a.scanners, request);
  }

  /** A constructor given at least one actuator ends in a valid state. */
  lemma InitValid<T>(request: seq<Actuator>, initial: Actuator -> seq<T>)
    requires |request| > 0
    ensures Valid(Init(request, initial))
  {
    var empty: Manager<T> := Manager([], [], 0);
    SetActuatorsPaired(empty, request, initial);
    assert request[0] in Init(request, initial).actuators;
  }

  /** A constructor given no actuators keeps the default 0 in the `n_steps`
      setting, while `tot_steps`, the product over no scanners, is 1. */
  lemma InitNoActuatorsStale<T>(initial: Actuator -> seq<T>)
    ensures Init([], initial) == Manager([], [], 0)
    ensures TotSteps(Init([], initial)) == 1
    ensures !Valid(Init([], initial))
  {
    var empty: Manager<T> := Manager([], [], 0);
    SetActuatorsPaired(empty, [], initial);
    assert Init([], initial).actuators == [];
  }

  /** Second loop of the setter as written: walk the actuators, removing each
      one that is not requested (and its scanner); the list shrinks under
      the walk, so the actuator after a removed one is not examined. */
  function DropAbsentAsWritten<T>(m: Manager<T>, request: seq<Actuator>, i: nat): Manager<T>
    decreases |m.actuators| - i
  {
    if i >= |m.actuators| then m
    else
      var act := m.actuators[i];
      if act in request then DropAbsentAsWritten(m, request, i + 1)
      else
        var m' := UpdateSteps(Manager(RemoveFirst(m.actuators, act), RemoveScanner(m.scanners, act), m.nSteps));
        DropAbsentAsWritten(m', request, i + 1)
  }

  /** The `actuators` setter as written. */
  function SetActuatorsAsWritten<T>(m: Manager<T>, request: seq<Actuator>, initial: Actuator -> seq<T>): Manager<T> {
    DropAbsentAsWritten(AppendMissing(m, request, initial), request, 0)
  }

  lemma {:induction false} DropNothing<T>(m: Manager<T>, request: seq<Actuator>, i: nat)
    requires forall j :: 0 <= j < |m.actuators| ==> m.actuators[j] in request
    ensures DropAbsentAsWritten(m, request, i) == m
    decreases |m.actuators| - i
  {
    if i < |m.actuators| {
      DropNothing(m, request, i + 1);
    }
  }

  /** Whatever the removal loop skips, it removes only unrequested actuators. */
  lemma {:induction false} DropAbsentKeeps<T>(m: Manager<T>, request: seq<Actuator>, i: nat)
    ensures KeepIn(DropAbsentAsWritten(m, request, i).actuators, request) == KeepIn(m.actuators, request)
    decreases |m.actuators| - i
  {
    if i < |m.actuators| {
      var act := m.actuators[i];
      if act in request {
        DropAbsentKeeps(m, request, i + 1);
      } else {
        var m' := UpdateSteps(Manager(RemoveFirst(m.actuators, act), RemoveScanner(m.scanners, act), m.nSteps));
        DropAbsentKeeps(m', request, i + 1);
        KeepInRemoveAt(m.actuators, IndexOf(m.actuators, act).value, request);
      }
    }
  }

  /** As written, the setter still holds every requested actuator, and the
      requested ones appear exactly as the intended setter lists them; what
      it can get wrong is leaving unrequested actuators behind. */
  lemma SetActuatorsAsWrittenKeepsRequested<T>(m: Manager<T>, request: seq<Actuator>, initial: Actuator -> seq<T>)
    ensures KeepIn(SetActuatorsAsWritten(m, request, initial).actuators, request)
         == SetActuators(m, request, initial).actuators
    ensures forall i :: 0 <= i < |request| ==> request[i] in SetActuatorsAsWritten(m, request, initial).actuators
  {
    var w := SetActuatorsAsWritten(m, request, initial).actuators;
    DropAbsentKeeps(AppendMissing(m, request, initial), request, 0);
    FilterAppended(m, request, initial);
    KeepInMembers(w, request);
  }


  /** Deselecting both actuators of TwoAxes: as written, removing "a" shifts
      "b" into the slot the loop has just passed, so "b" and its scanner
      survive; the intended setter drops both. */
  lemma SetActuatorsAsWrittenSkips(initial: Actuator -> seq<int>)
    ensures SetActuatorsAsWritten(TwoAxes(), [], initial).actuators == [Actuator(1, "b")]
    ensures |SetActuatorsAsWritten(TwoAxes(), [], initial).scanners| == 1
    ensures SetActuators(TwoAxes(), [], initial).actuators == []
  {
    SkipsAsWritten(initial);
    SkipsIntended(initial);
  }

  lemma SkipsAsWritten(initial: Actuator -> seq<int>)
    ensures SetActuatorsAsWritten(TwoAxes(), [], initial).actuators == [Actuator(1, "b")]
    ensures |SetActuatorsAsWritten(TwoAxes(), [], initial).scanners| == 1
  {
    var m := TwoAxes();
    var a, b := Actuator(0, "a"), Actuator(1, "b");
    assert AppendMissing(m, [], initial) == m;
    FirstRemoval(a, b, m.actuators);
    OneScannerLeft(m.scanners, a, b);
    var m' := UpdateSteps(Manager([b], RemoveScanner(m.scanners, a), m.nSteps));
    assert DropAbsentAsWritten(m, [], 0) == DropAbsentAsWritten(m', [], 1);
  }

  lemma SkipsIntended(initial: Actuator -> seq<int>)
    ensures SetActuators(TwoAxes(), [], initial).actuators == []
  {
    var m := TwoAxes();
    assert KeepOut([], m.actuators) == [];
    assert KeepIn(m.actuators, []) == [];
  }

  lemma OneScannerLeft(s: seq<Scanner<int>>, a: Actuator, b: Actuator)
    requires a != b && ActuatorsOf(s) == [a, b]
    ensures |RemoveScanner(s, a)| == 1
  {
    RemoveScannerExact(s, a);
    assert s[0].actuator == a;
  }

  lemma FirstRemoval(a: Actuator, b: Actuator, acts: seq<Actuator>)
    requires a != b && acts == [a, b]
    ensures a in acts && RemoveFirst(acts, a) == [b]
  {
    assert IndexOf(acts, a) == Some(0);
  }
}
