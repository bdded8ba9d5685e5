/** One actuator's sub-scanner: the 1-D positions produced by its underlying
    scanner, optionally randomized and/or reordered back-and-forth, then
    rounded. */
module SequentialScanner {
  import opened Seqs
  import opened Transforms

  /** An actuator (a DAQ_Move) as the scanners see it: an identity and the
      title the orderings are written in. */
  datatype Actuator = Actuator(id: nat, title: string)

  /** `raw` is the underlying scanner's positions after the squeeze over the
      single actuator axis; the two flags are the checkable toolbar actions. */
  datatype Scanner<T> = Scanner(actuator: Actuator, raw: seq<T>, randomize: bool, backAndForth: bool)

  /** Threshold above which the positions table is truncated. */
  const LimTableSize: nat := 500

  /** `n_steps` forwards the underlying scanner's step count. */
  function NSteps<T>(sc: Scanner<T>): nat {
    |sc.raw|
  }

  /** The draw `numbers` is only consulted when randomization is on. */
  predicate DrawFits<T>(sc: Scanner<T>, numbers: seq<nat>) {
    sc.randomize ==> IsIndexPermutation(numbers, |sc.raw|)
  }

  /** The raw index whose value ends up at output step `i`: back-and-forth
      is applied to the already randomized order, so its source index is
      looked up through the draw. */
  function SourceIndex<T>(sc: Scanner<T>, numbers: seq<nat>, i: nat): (j: nat)
    requires DrawFits(sc, numbers) && i < |sc.raw|
    ensures j < |sc.raw|
  {
    var k := if sc.backAndForth then BackAndForthSource(i, |sc.raw|) else i;
    if sc.randomize then
      IndexPermutationShape(numbers, |sc.raw|);
      numbers[k]
    else k
  }

  /** The positions before rounding: randomize with the draw, then
      back-and-forth. */
  function Reordered<T>(sc: Scanner<T>, numbers: seq<nat>): (r: seq<T>)
    requires DrawFits(sc, numbers)
    ensures |r| == NSteps(sc)
    ensures multiset(r) == multiset(sc.raw)
    ensures forall i :: 0 <= i < |r| ==> r[i] == sc.raw[SourceIndex(sc, numbers, i)]
  {
    var shuffled := if sc.randomize then Randomize(sc.raw, numbers) else sc.raw;
    if sc.backAndForth then BackAndForth(shuffled) else shuffled
  }

  /** The `positions` property: the reordered positions, each passed through
      the caller's `round` (`np.round(..., 8)` in the source). */
  function Positions<T>(sc: Scanner<T>, numbers: seq<nat>, round: T -> T): (r: seq<T>)
    requires DrawFits(sc, numbers)
    ensures |r| == NSteps(sc)
    ensures forall i :: 0 <= i < |r| ==> r[i] == round(sc.raw[SourceIndex(sc, numbers, i)])
  {
    MapSeq(round, Reordered(sc, numbers))
  }

  /** Rounding commutes with the reordering, so the rounded positions are a
      permutation of the rounded raw positions: nothing is lost or
      duplicated. */
  lemma PositionsPermuteRaw<T>(sc: Scanner<T>, numbers: seq<nat>, round: T -> T)
    requires DrawFits(sc, numbers)
    ensures multiset(Positions(sc, numbers, round)) == multiset(MapSeq(round, sc.raw))
  {
    var rounded := sc.(raw := MapSeq(round, sc.raw));
    assert DrawFits(rounded, numbers);
    var p := Positions(sc, numbers, round);
    var q := Reordered(rounded, numbers);
    assert forall i :: 0 <= i < |p| ==> SourceIndex(rounded, numbers, i) == SourceIndex(sc, numbers, i);
    assert p == q;
  }

  /** With both actions off the positions are the rounded raw positions, in
      their original order. */
  lemma PositionsPlain<T>(sc: Scanner<T>, numbers: seq<nat>, round: T -> T)
    requires !sc.randomize && !sc.backAndForth
    ensures Positions(sc, numbers, round) == MapSeq(round, sc.raw)
  {
  }

  /** Back-and-forth without randomization starts on the first raw position
      and, for two or more steps, ends on the second. */
  lemma PositionsBackAndForthEnds<T>(sc: Scanner<T>, numbers: seq<nat>, round: T -> T)
    requires !sc.randomize && sc.backAndForth && |sc.raw| >= 2
    ensures Positions(sc, numbers, round)[0] == round(sc.raw[0])
    ensures Positions(sc, numbers, round)[|sc.raw| - 1] == round(sc.raw[1])
  {
    BackAndForthEnds(sc.raw);
  }

  /** `updateTable`: the row count is clamped to LimTableSize and the rows
      listed are the leading positions. */
  function TableRows<T>(sc: Scanner<T>, numbers: seq<nat>, round: T -> T): (t: (nat, seq<T>))
    requires DrawFits(sc, numbers)
    ensures t.0 <= LimTableSize && t.0 <= NSteps(sc)
    ensures t.0 == NSteps(sc) || t.0 == LimTableSize
    ensures |t.1| == t.0
    ensures t.1 <= Positions(sc, numbers, round)
  {
    var rows := if NSteps(sc) > LimTableSize then LimTableSize else NSteps(sc);
    var p := Positions(sc, numbers, round);
    var listed := if |p| > LimTableSize then p[..LimTableSize] else p;
    (rows, listed)
  }

  /** The table lists every position exactly when there are at most
      LimTableSize of them; otherwise it is cut to LimTableSize rows. */
  lemma TableRowsComplete<T>(sc: Scanner<T>, numbers: seq<nat>, round: T -> T)
    requires DrawFits(sc, numbers)
    ensures TableRows(sc, numbers, round).1 == Positions(sc, numbers, round) <==> NSteps(sc) <= LimTableSize
    ensures NSteps(sc) > LimTableSize ==> TableRows(sc, numbers, round).0 == LimTableSize
  {
    var p := Positions(sc, numbers, round);
    if NSteps(sc) > LimTableSize {
      assert |TableRows(sc, numbers, round).1| < |p|;
    }
  }
}
