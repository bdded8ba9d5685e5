/** The ordering-driven variant of the trajectory: sub-scanners held in a
    mapping and combined in the order an explicit `ordering` list names
    them, plus the keyed removal of one sub-scanner. The class never assigns
    `scanners` or `ordering` (its constructor sets only `actuators` and
    `scanner_type`), and `product` is not imported; the model takes the
    mapping and the ordering as given state, shaped as the commented-out
    `actuators` setter builds them, and gives `product` its
    `itertools.product` meaning. */
module ScannerSelector {
  import opened Outcomes
  import opened Seqs
  import opened Product
  import opened SequentialScanner
  import ScannerManager

  /** `scanners` maps each key (an actuator) to its sub-scanner; `ordering`
      lists the keys, first axis first. */
  datatype Selector<K, T> = Selector(scanners: map<K, Scanner<T>>, ordering: seq<K>)

  /** Every key of the ordering has a scanner. */
  predicate Covered<K, T>(sel: Selector<K, T>) {
    forall j :: 0 <= j < |sel.ordering| ==> sel.ordering[j] in sel.scanners
  }

  /** `[self.scanners[act] for act in self.ordering]`; a missing key raises
      KeyError. */
  function OrderedScanners<K, T>(sel: Selector<K, T>): (r: Result<seq<Scanner<T>>>)
    ensures r.Ok? <==> Covered(sel)
    ensures r.Err? ==> r.error == KeyError
    ensures r.Ok? ==> |r.value| == |sel.ordering|
    ensures r.Ok? ==> forall j :: 0 <= j < |r.value| ==> r.value[j] == sel.scanners[sel.ordering[j]]
  {
    if Covered(sel) then Ok(seq(|sel.ordering|, j requires 0 <= j < |sel.ordering| => sel.scanners[sel.ordering[j]]))
    else Err(KeyError)
  }

  /** The step count of each axis, in ordering order. */
  function OrderedSteps<K, T>(sel: Selector<K, T>): (r: seq<nat>)
    requires Covered(sel)
    ensures |r| == |sel.ordering|
    ensures forall j :: 0 <= j < |r| ==> r[j] == NSteps(sel.scanners[sel.ordering[j]])
  {
    seq(|sel.ordering|, j requires 0 <= j < |sel.ordering| => NSteps(sel.scanners[sel.ordering[j]]))
  }

  /** `get_indexing`: the product of the index ranges of the ordered axes,
      one row per step, row `k` the mixed-radix digits of `k` with the last
      ordered axis fastest. */
  function GetIndexing<K, T>(sel: Selector<K, T>): (r: Result<seq<seq<nat>>>)
    ensures r.Ok? <==> Covered(sel)
    ensures r.Err? ==> r.error == KeyError
    ensures r.Ok? ==> |r.value| == StepsProduct(OrderedSteps(sel))
    ensures r.Ok? ==> forall k :: 0 <= k < |r.value| ==>
              |r.value[k]| == |sel.ordering| && r.value[k] == Decompose(k, OrderedSteps(sel))
  {
    if !Covered(sel) then Err(KeyError)
    else
      IndexGridRows(OrderedSteps(sel));
      Ok(IndexGrid(OrderedSteps(sel)))
  }

  /** One positions draw per ordered axis, each fitting its scanner. */
  predicate DrawsFit<K, T>(sel: Selector<K, T>, draws: seq<seq<nat>>) {
    Covered(sel) && |draws| == |sel.ordering|
    && forall j :: 0 <= j < |draws| ==> DrawFits(sel.scanners[sel.ordering[j]], draws[j])
  }

  /** The positions of each ordered axis. */
  function OrderedAxes<K, T>(sel: Selector<K, T>, draws: seq<seq<nat>>, round: T -> T): (axes: seq<seq<T>>)
    requires DrawsFit(sel, draws)
    ensures |axes| == |sel.ordering|
    ensures forall j :: 0 <= j < |axes| ==> axes[j] == Positions(sel.scanners[sel.ordering[j]], draws[j], round)
    ensures Lengths(axes) == OrderedSteps(sel)
  {
    seq(|sel.ordering|, j requires 0 <= j < |sel.ordering| => Positions(sel.scanners[sel.ordering[j]], draws[j], round))
  }

  /** `get_positions`: the product of the ordered axes' positions. */
  function GetPositions<K, T>(sel: Selector<K, T>, draws: seq<seq<nat>>, round: T -> T): (r: Result<seq<seq<T>>>)
    requires |draws| == |sel.ordering|
    requires Covered(sel) ==> DrawsFit(sel, draws)
    ensures r.Ok? <==> Covered(sel)
    ensures r.Err? ==> r.error == KeyError
    ensures r.Ok? ==> |r.value| == StepsProduct(OrderedSteps(sel))
    ensures r.Ok? ==> forall k :: 0 <= k < |r.value| ==> |r.value[k]| == |sel.ordering|
  {
    if !Covered(sel) then Err(KeyError)
    else
      var axes := OrderedAxes(sel, draws, round);
      ProductRows(axes);
      Ok(CartesianProduct(axes))
  }

  /** Column `j` of the positions is drawn from the scanner `ordering[j]`
      names, at the index the index grid records. */
  lemma GetPositionsParallel<K, T>(sel: Selector<K, T>, draws: seq<seq<nat>>, round: T -> T, k: nat, j: nat)
    requires DrawsFit(sel, draws)
    requires k < StepsProduct(OrderedSteps(sel)) && j < |sel.ordering|
    ensures GetIndexing(sel).value[k][j] < NSteps(sel.scanners[sel.ordering[j]])
    ensures GetPositions(sel, draws, round).value[k][j]
         == Positions(sel.scanners[sel.ordering[j]], draws[j], round)[GetIndexing(sel).value[k][j]]
  {
    var axes := OrderedAxes(sel, draws, round);
    ProductRows(axes);
    ProductParallel(axes, k, j);
  }

  /** Picking the scanners by the ordering and then combining them is the
      manager's product over that scanner list. */
  lemma SelectorIsManagerProduct<K, T>(sel: Selector<K, T>, draws: seq<seq<nat>>, round: T -> T)
    requires DrawsFit(sel, draws)
    ensures OrderedScanners(sel).Ok?
    ensures ScannerManager.DrawsFit(ScannerManager.Manager([], OrderedScanners(sel).value, 0), draws)
    ensures GetPositions(sel, draws, round).value
         == ScannerManager.GetPositions(ScannerManager.Manager([], OrderedScanners(sel).value, 0), draws, round)
    ensures GetIndexing(sel).value
         == ScannerManager.GetIndexing(ScannerManager.Manager([], OrderedScanners(sel).value, 0))
  {
    var m := ScannerManager.Manager([], OrderedScanners(sel).value, 0);
    assert ScannerManager.AxisPositions(m, draws, round) == OrderedAxes(sel, draws, round);
    assert ScannerManager.Steps(m) == OrderedSteps(sel);
  }

  /** The selector's own `positions` property: randomize with the draw,
      then back-and-forth, and no rounding step. */
  function SubPositions<T>(sc: Scanner<T>, numbers: seq<nat>): (r: seq<T>)
    requires DrawFits(sc, numbers)
    ensures |r| == NSteps(sc)
    ensures multiset(r) == multiset(sc.raw)
  {
    Reordered(sc, numbers)
  }

  /** The selector's pipeline is the sequential scanner's with rounding
      replaced by the identity. */
  lemma SubPositionsUnrounded<T>(sc: Scanner<T>, numbers: seq<nat>)
    requires DrawFits(sc, numbers)
    ensures SubPositions(sc, numbers) == Positions(sc, numbers, x => x)
    ensures forall i :: 0 <= i < NSteps(sc) ==> SubPositions(sc, numbers)[i] == sc.raw[SourceIndex(sc, numbers, i)]
  {
    var r := SubPositions(sc, numbers);
    var p := Positions(sc, numbers, x => x);
    assert |r| == |p|;
    assert forall i :: 0 <= i < |r| ==> r[i] == p[i];
  }

  /** `SequentialScanners.removeScanner`: pop the scanner of `key` (the one
      whose widget is then taken down) from the actuator-to-scanner mapping
      of the commented-out setter; a missing key raises KeyError. */
  function RemoveScanner<K, T>(scanners: map<K, Scanner<T>>, key: K): (r: Result<(map<K, Scanner<T>>, Scanner<T>)>)
    ensures r.Ok? <==> key in scanners
    ensures r.Err? ==> r.error == KeyError
    ensures r.Ok? ==> r.value.0.Keys == scanners.Keys - {key}
    ensures r.Ok? ==> forall k :: k in r.value.0 ==> r.value.0[k] == scanners[k]
  {
    if key in scanners then Ok((scanners - {key}, scanners[key])) else Err(KeyError)
  }

  /** Putting the popped scanner back under its key restores the mapping. */
  lemma RemoveScannerRoundTrip<K, T>(scanners: map<K, Scanner<T>>, key: K)
    requires key in scanners
    ensures RemoveScanner(scanners, key).Ok?
    ensures RemoveScanner(scanners, key).value.0[key := RemoveScanner(scanners, key).value.1] == scanners
  {
  }
}
