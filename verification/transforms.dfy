/** The per-axis position transforms of a sub-scanner: randomize (apply the
    index permutation the random generator drew) and back-and-forth (even
    indices in order, then odd indices reversed). */
module Transforms {
  import opened Seqs

  /** `positions[rng.choice(n, size=n, replace=False)]`, with the drawn
      indices supplied by the caller. */
  function Randomize<T>(s: seq<T>, numbers: seq<nat>): (r: seq<T>)
    requires IsIndexPermutation(numbers, |s|)
    ensures |r| == |s|
    ensures multiset(r) == multiset(s)
    ensures |numbers| == |s|
    ensures forall i :: 0 <= i < |s| ==> numbers[i] < |s| && r[i] == s[numbers[i]]
  {
    SelectByPermutation(s, numbers);
    IndexPermutationShape(numbers, |s|);
    Select(s, numbers)
  }

  /** A sequence of at most one element has only the identity permutation, so
      randomizing it changes nothing. */
  lemma RandomizeShort<T>(s: seq<T>, numbers: seq<nat>)
    requires IsIndexPermutation(numbers, |s|) && |s| <= 1
    ensures Randomize(s, numbers) == s
  {
    IndexPermutationShape(numbers, |s|);
  }

  /** The input index that back-and-forth moves to output index `i` of a
      sequence of length `n`: the first half of the output walks the even
      indices up, the second half walks the odd indices down. */
  function BackAndForthSource(i: nat, n: nat): (j: nat)
    requires i < n
    ensures j < n
  {
    if 2 * i < n then 2 * i else 2 * (n - 1 - i) + 1
  }

  /** `np.concatenate([positions[0::2], np.flip(positions[1::2])])`. */
  function BackAndForth<T>(s: seq<T>): (r: seq<T>)
    ensures |r| == |s|
    ensures multiset(r) == multiset(s)
    ensures forall i :: 0 <= i < |s| ==> r[i] == s[BackAndForthSource(i, |s|)]
  {
    EvensOddsMultiset(s);
    ReverseMultiset(Odds(s));
    HalvesAdd(|s|);
    var r := Evens(s) + Reverse(Odds(s));
    forall i | 0 <= i < |s|
      ensures r[i] == s[BackAndForthSource(i, |s|)]
    {
      BackAndForthAt(s, i);
    }
    r
  }

  lemma HalvesAdd(n: nat)
    ensures (n + 1) / 2 + n / 2 == n
  {
  }

  lemma BackAndForthAt<T>(s: seq<T>, i: nat)
    requires i < |s|
    ensures (Evens(s) + Reverse(Odds(s)))[i] == s[BackAndForthSource(i, |s|)]
  {
    var e, o := Evens(s), Odds(s);
    var b := Reverse(o);
    HalfLengths(s);
    if i < |e| {
      EvensAt(s, i);
      EvenHalfAt(s, e, b, i);
    } else {
      OddsAt(s, |s| - 1 - i);
      ReverseAt(o, i - |e|);
      OddHalfAt(s, e, b, i);
    }
  }

  lemma HalfLengths<T>(s: seq<T>)
    ensures |Evens(s)| + |Odds(s)| == |s|
    ensures 2 * |Evens(s)| == |s| || 2 * |Evens(s)| == |s| + 1
  {
    HalvesAdd(|s|);
  }

  lemma EvensAt<T>(s: seq<T>, i: nat)
    requires i < |Evens(s)|
    ensures Evens(s)[i] == s[2 * i]
  {
  }

  lemma OddsAt<T>(s: seq<T>, j: nat)
    requires j < |Odds(s)|
    ensures Odds(s)[j] == s[2 * j + 1]
  {
  }

  lemma ReverseAt<T>(s: seq<T>, k: nat)
    requires k < |s|
    ensures Reverse(s)[k] == s[|s| - 1 - k]
  {
  }

  /** An output index inside the even half reads the even-indexed input. */
  lemma EvenHalfAt<T>(s: seq<T>, e: seq<T>, b: seq<T>, i: nat)
    requires i < |e| && i < |s| && (2 * |e| == |s| || 2 * |e| == |s| + 1)
    requires e[i] == s[2 * i]
    ensures (e + b)[i] == s[BackAndForthSource(i, |s|)]
  {
    assert BackAndForthSource(i, |s|) == 2 * i;
    assert (e + b)[i] == e[i];
  }

  /** An output index past the even half reads the reversed odd half. */
  lemma OddHalfAt<T>(s: seq<T>, e: seq<T>, b: seq<T>, i: nat)
    requires |e| <= i < |s| && |e| + |b| == |s| && (2 * |e| == |s| || 2 * |e| == |s| + 1)
    requires b[i - |e|] == s[2 * (|s| - 1 - i) + 1]
    ensures (e + b)[i] == s[BackAndForthSource(i, |s|)]
  {
    assert BackAndForthSource(i, |s|) == 2 * (|s| - 1 - i) + 1;
    assert (e + b)[i] == b[i - |e|];
  }

  /** Back-and-forth leaves sequences of length 0 and 1 alone, starts on the
      original first position, and for two or more positions finishes on
      the original second one: the scan ends next to where it began. */
  lemma BackAndForthEnds<T>(s: seq<T>)
    ensures |s| <= 1 ==> BackAndForth(s) == s
    ensures |s| >= 1 ==> BackAndForth(s)[0] == s[0]
    ensures |s| >= 2 ==> BackAndForth(s)[|s| - 1] == s[1]
  {
  }

  /** Alternate elements of `a` and `b`, starting with `a`. */
  function Interleave<T>(a: seq<T>, b: seq<T>): seq<T>
    decreases |a| + |b|
  {
    if |a| == 0 then b else [a[0]] + Interleave(b, a[1..])
  }

  lemma {:induction false} InterleaveEvensOdds<T>(s: seq<T>)
    ensures Interleave(Evens(s), Odds(s)) == s
    decreases |s|
  {
    if |s| > 0 {
      HalvesCons(s);
      InterleaveEvensOdds(s[1..]);
      assert s == [s[0]] + s[1..];
    }
  }

  lemma ReverseReverse<T>(s: seq<T>)
    ensures Reverse(Reverse(s)) == s
  {
  }

  /** The inverse of back-and-forth: read the first half forwards and the
      second half backwards, alternately. */
  function UndoBackAndForth<T>(r: seq<T>): seq<T> {
    var h := (|r| + 1) / 2;
    Interleave(r[..h], Reverse(r[h..]))
  }

  /** Undoing back-and-forth restores the original order. */
  lemma BackAndForthRoundTrip<T>(s: seq<T>)
    ensures UndoBackAndForth(BackAndForth(s)) == s
  {
    var e, o := Evens(s), Odds(s);
    assert BackAndForth(s) == e + Reverse(o);
    UndoHalves(e, o);
    InterleaveEvensOdds(s);
  }

  /** Undoing splits a first half of `(n + 1) / 2` elements from a reversed
      second half and interleaves them back. */
  lemma UndoHalves<T>(e: seq<T>, o: seq<T>)
    requires |e| == |o| || |e| == |o| + 1
    ensures UndoBackAndForth(e + Reverse(o)) == Interleave(e, o)
  {
    var r := e + Reverse(o);
    assert (|r| + 1) / 2 == |e|;
    assert r[..|e|] == e;
    assert r[|e|..] == Reverse(o);
    ReverseReverse(o);
  }
}
