/** Run-length coding of rounded DCT coefficients (rle.c).

    Each non-zero coefficient is stored as the number of zeros before it,
    on the stream of counts, followed by its value, on the stream of signed
    values; zeros left at the end are stored as one last count. The
    coefficients here are the integers rint already produced; the two
    streams are the sequences of integers their intstreams carry, in order.
 */
module Rle {
  import opened Results

  /** `n` zero coefficients. */
  function ZeroRun(n: nat): (r: seq<int>)
    ensures |r| == n
    ensures forall i | 0 <= i < n :: r[i] == 0
  {
    if n == 0 then [] else [0] + ZeroRun(n - 1)
  }

  /** The non-zero coefficients, in order. */
  function NonZeros(dct: seq<int>): seq<int>
  {
    if |dct| == 0 then []
    else if dct[0] != 0 then [dct[0]] + NonZeros(dct[1..])
    else NonZeros(dct[1..])
  }

  /** The sum of a stream of counts. */
  function Total(counts: seq<nat>): nat
  {
    if |counts| == 0 then 0 else counts[0] + Total(counts[1..])
  }

  /** Whether a last count follows the last value: zeros are pending when
      the coefficients end in 0, or when none is left and `zeros` were
      already counted. */
  predicate EndsInZeros(dct: seq<int>, zeros: nat)
  {
    if |dct| == 0 then zeros > 0 else dct[|dct| - 1] == 0
  }

  /** The loop of compresse from a point where `zeros` zeros have been
      counted: returns the counts and the values it puts. */
  function Compress(dct: seq<int>, zeros: nat): (r: (seq<nat>, seq<int>))
    ensures |r.0| >= |r.1|
  {
    if |dct| == 0 then (if zeros > 0 then [zeros] else [], [])
    else if dct[0] != 0 then
      var (counts, values) := Compress(dct[1..], 0);
      ([zeros] + counts, [dct[0]] + values)
    else Compress(dct[1..], zeros + 1)
  }

  /** compresse: the counts and values stored for the coefficients. */
  function Compresse(dct: seq<int>): (r: (seq<nat>, seq<int>))
    ensures |r.0| >= |r.1|
  {
    Compress(dct, 0)
  }

  /** decompresse: fills `nbe` coefficients, each round reading a count of
      zeros then, unless the zeros complete the array, one value. Running
      out of either stream is a read error; a count of zeros past the end
      of the array is an overflow (the C code writes beyond the array).
      Returns the coefficients and what is left of the two streams. */
  function Decompresse(nbe: nat, counts: seq<nat>, values: seq<int>): (r: Result<(seq<int>, seq<nat>, seq<int>)>)
    ensures r.Ok? ==> |r.value.0| == nbe
    ensures r.Ok? ==> |r.value.1| <= |counts| && r.value.1 == counts[|counts| - |r.value.1|..]
    ensures r.Ok? ==> |r.value.2| <= |values| && r.value.2 == values[|values| - |r.value.2|..]
    ensures r.Err? ==> r.error == EndOfInput || r.error == RunOverflow
    decreases |counts|
  {
    if nbe == 0 then Ok(([], counts, values))
    else if |counts| == 0 then Err(EndOfInput)
    else if counts[0] > nbe then Err(RunOverflow)
    else if counts[0] == nbe then Ok((ZeroRun(nbe), counts[1..], values))
    else if |values| == 0 then Err(EndOfInput)
    else
      var (tail, counts', values') :- Decompresse(nbe - counts[0] - 1, counts[1..], values[1..]);
      Ok((ZeroRun(counts[0]) + [values[0]] + tail, counts', values'))
  }

  // ---------------------------------------------------------------------
  // What compresse stores.

  /** The values stored are the non-zero coefficients; every coefficient
      is either a stored value or one of the zeros counted; a count follows
      the last value exactly when the coefficients end in zeros. */
  lemma CompresseShape(dct: seq<int>)
    ensures Compresse(dct).1 == NonZeros(dct)
    ensures forall i | 0 <= i < |Compresse(dct).1| :: Compresse(dct).1[i] != 0
    ensures Total(Compresse(dct).0) + |Compresse(dct).1| == |dct|
    ensures |Compresse(dct).0| == |Compresse(dct).1| + (if EndsInZeros(dct, 0) then 1 else 0)
  {
    CompressShape(dct, 0);
    NonZerosAreNonZero(dct);
  }

  /** CompresseShape from any point of the loop. */
  lemma {:induction false} CompressShape(dct: seq<int>, zeros: nat)
    ensures Compress(dct, zeros).1 == NonZeros(dct)
    ensures Total(Compress(dct, zeros).0) + |Compress(dct, zeros).1| == zeros + |dct|
    ensures |Compress(dct, zeros).0| == |Compress(dct, zeros).1| + (if EndsInZeros(dct, zeros) then 1 else 0)
    decreases |dct|
  {
    if |dct| == 0 {
      assert Total([zeros]) == zeros + Total([]);
    } else if dct[0] != 0 {
      var (counts, values) := Compress(dct[1..], 0);
      CompressShape(dct[1..], 0);
      assert ([zeros] + counts)[1..] == counts;
      assert |dct[1..]| == 0 ==> !EndsInZeros(dct, zeros);
      assert |dct[1..]| > 0 ==> dct[1..][|dct[1..]| - 1] == dct[|dct| - 1];
    } else {
      CompressShape(dct[1..], zeros + 1);
      assert |dct[1..]| > 0 ==> dct[1..][|dct[1..]| - 1] == dct[|dct| - 1];
    }
  }

  /** No value of NonZeros is 0. */
  lemma {:induction false} NonZerosAreNonZero(dct: seq<int>)
    ensures forall i | 0 <= i < |NonZeros(dct)| :: NonZeros(dct)[i] != 0
    ensures |NonZeros(dct)| <= |dct|
    decreases |dct|
  {
    if |dct| > 0 {
      NonZerosAreNonZero(dct[1..]);
    }
  }

  /** The example of rle.c: 5 8 0 0 4 0 0 0 0 2 1 0 0 0 is stored as the
      counts 0 0 2 4 0 3 and the values 5 8 4 2 1. */
  lemma CompresseExample(dct: seq<int>)
    requires dct == [5, 8, 0, 0, 4, 0, 0, 0, 0, 2, 1, 0, 0, 0]
    ensures Compresse(dct) == ([0, 0, 2, 4, 0, 3], [5, 8, 4, 2, 1])
  {
    var start := [8] + ([0, 0] + ([4] + ([0, 0, 0, 0] + [2, 1, 0, 0, 0])));
    ExampleStart();
    CompressValue(5, start, 0, [0, 2, 4, 0, 3], [8, 4, 2, 1], [0, 0, 2, 4, 0, 3], [5, 8, 4, 2, 1]);
    ExampleLayout(dct);
  }

  /** The example's coefficients as the runs the proof steps through. */
  lemma ExampleLayout(dct: seq<int>)
    requires dct == [5, 8, 0, 0, 4, 0, 0, 0, 0, 2, 1, 0, 0, 0]
    ensures dct == [5] + ([8] + ([0, 0] + ([4] + ([0, 0, 0, 0] + [2, 1, 0, 0, 0]))))
  {
  }

  /** The example from its second coefficient on. */
  lemma ExampleStart()
    ensures Compress([8] + ([0, 0] + ([4] + ([0, 0, 0, 0] + [2, 1, 0, 0, 0]))), 0) == ([0, 2, 4, 0, 3], [8, 4, 2, 1])
  {
    var middle := [4] + ([0, 0, 0, 0] + [2, 1, 0, 0, 0]);
    ExampleMiddle();
    CountZeros([0, 0], middle, 0);
    CompressValue(8, [0, 0] + middle, 0, [2, 4, 0, 3], [4, 2, 1], [0, 2, 4, 0, 3], [8, 4, 2, 1]);
  }

  /** The example from its fifth coefficient on, after two zeros. */
  lemma ExampleMiddle()
    ensures Compress([4] + ([0, 0, 0, 0] + [2, 1, 0, 0, 0]), 2) == ([2, 4, 0, 3], [4, 2, 1])
  {
    ExampleEnd();
    CountZeros([0, 0, 0, 0], [2, 1, 0, 0, 0], 0);
    CompressValue(4, [0, 0, 0, 0] + [2, 1, 0, 0, 0], 2, [4, 0, 3], [2, 1], [2, 4, 0, 3], [4, 2, 1]);
  }

  /** The example from its tenth coefficient on, after four zeros. */
  lemma ExampleEnd()
    ensures Compress([2, 1, 0, 0, 0], 4) == ([4, 0, 3], [2, 1])
  {
    CountZeros([0, 0, 0], [], 0);
    assert [0, 0, 0] + [] == [0, 0, 0];
    assert Compress([], 3) == ([3], []);
    CompressValue(1, [0, 0, 0], 0, [3], [], [0, 3], [1]);
    assert [1] + [0, 0, 0] == [1, 0, 0, 0];
    CompressValue(2, [1, 0, 0, 0], 4, [0, 3], [1], [4, 0, 3], [2, 1]);
    assert [2] + [1, 0, 0, 0] == [2, 1, 0, 0, 0];
  }

  /** compresse over zeros then `rest` counts them before going on. */
  lemma {:induction false} CountZeros(zs: seq<int>, rest: seq<int>, zeros: nat)
    requires forall i | 0 <= i < |zs| :: zs[i] == 0
    ensures Compress(zs + rest, zeros) == Compress(rest, zeros + |zs|)
    decreases |zs|
  {
    if |zs| > 0 {
      assert zs + rest == [0] + (zs[1..] + rest);
      CompressZero(zs + rest, zeros);
      CountZeros(zs[1..], rest, zeros + 1);
    } else {
      assert zs + rest == rest;
    }
  }

  // ---------------------------------------------------------------------
  // decompresse inverts compresse.

  /** decompresse reads back the coefficients compresse stored, and leaves
      whatever follows on either stream unread. */
  lemma DecompresseOfCompresse(dct: seq<int>, moreCounts: seq<nat>, moreValues: seq<int>)
    ensures Decompresse(|dct|, Compresse(dct).0 + moreCounts, Compresse(dct).1 + moreValues)
      == Ok((dct, moreCounts, moreValues))
  {
    DecompressOfCompress(dct, 0, moreCounts, moreValues, |dct|, dct);
    assert ZeroRun(0) + dct == dct;
  }

  /** DecompresseOfCompresse from any point of the loop of compresse:
      the zeros already counted come back first. */
  lemma {:induction false} DecompressOfCompress(dct: seq<int>, zeros: nat, moreCounts: seq<nat>, moreValues: seq<int>,
                                              nbe: nat, all: seq<int>)
    requires nbe == zeros + |dct| && all == ZeroRun(zeros) + dct
    ensures Decompresse(nbe, Compress(dct, zeros).0 + moreCounts, Compress(dct, zeros).1 + moreValues)
      == Ok((all, moreCounts, moreValues))
    decreases |dct|
  {
    if |dct| == 0 {
      assert all == ZeroRun(zeros);
      if zeros > 0 {
        assert Compress(dct, zeros) == ([zeros], []);
        assert ([zeros] + moreCounts)[1..] == moreCounts;
        assert [] + moreValues == moreValues;
      } else {
        assert Compress(dct, zeros) == ([], []);
        assert [] + moreCounts == moreCounts && [] + moreValues == moreValues;
      }
    } else if dct[0] != 0 {
      var next := Compress(dct[1..], 0);
      var counts', values' := next.0, next.1;
      assert dct == [dct[0]] + dct[1..];
      CompressValue(dct[0], dct[1..], zeros, counts', values', [zeros] + counts', [dct[0]] + values');
      assert ZeroRun(0) + dct[1..] == dct[1..];
      DecompressOfCompress(dct[1..], 0, moreCounts, moreValues, |dct| - 1, dct[1..]);
      AppendAssoc([zeros], counts', moreCounts);
      AppendAssoc([dct[0]], values', moreValues);
      AppendAssoc(ZeroRun(zeros), [dct[0]], dct[1..]);
      DecompresseRound(nbe, zeros, counts' + moreCounts, dct[0], values' + moreValues,
                       dct[1..], moreCounts, moreValues, all);
    } else {
      ZeroRunAppend(zeros);
      AppendAssoc(ZeroRun(zeros), [0], dct[1..]);
      CompressZero(dct, zeros);
      DecompressOfCompress(dct[1..], zeros + 1, moreCounts, moreValues, nbe, all);
    }
  }

  /** One round of compresse over a non-zero coefficient. */
  lemma CompressValue(x: int, rest: seq<int>, zeros: nat, counts: seq<nat>, values: seq<int>,
                      counts': seq<nat>, values': seq<int>)
    requires x != 0
    requires Compress(rest, 0) == (counts, values)
    requires counts' == [zeros] + counts && values' == [x] + values
    ensures Compress([x] + rest, zeros) == (counts', values')
  {
    assert ([x] + rest)[1..] == rest;
  }

  /** One round of compresse over a zero coefficient. */
  lemma CompressZero(dct: seq<int>, zeros: nat)
    requires |dct| > 0 && dct[0] == 0
    ensures Compress(dct, zeros) == Compress(dct[1..], zeros + 1)
    ensures [dct[0]] + dct[1..] == dct
  {
  }

  /** One round of decompresse that reads a value: `zeros` zeros, the value,
      then the rest of the array. */
  lemma DecompresseRound(nbe: nat, zeros: nat, counts: seq<nat>, value: int, values: seq<int>,
                         tail: seq<int>, counts': seq<nat>, values': seq<int>, all: seq<int>)
    requires zeros < nbe
    requires Decompresse(nbe - zeros - 1, counts, values) == Ok((tail, counts', values'))
    requires all == ZeroRun(zeros) + [value] + tail
    ensures Decompresse(nbe, [zeros] + counts, [value] + values) == Ok((all, counts', values'))
  {
    var c, vs := [zeros] + counts, [value] + values;
    assert c[0] == zeros && c[1..] == counts;
    assert vs[0] == value && vs[1..] == values;
  }

  /** A count of zeros that fills the rest of the array ends decompresse:
      no value is read, whatever the value stream holds. */
  lemma DecompresseFull(nbe: nat, counts: seq<nat>, values: seq<int>)
    requires nbe > 0
    ensures Decompresse(nbe, [nbe] + counts, values) == Ok((ZeroRun(nbe), counts, values))
  {
    assert ([nbe] + counts)[0] == nbe && ([nbe] + counts)[1..] == counts;
  }

  // ---------------------------------------------------------------------
  // Helpers.

  lemma {:induction false} ZeroRunAppend(n: nat)
    ensures ZeroRun(n + 1) == ZeroRun(n) + [0]
  {
    assert ZeroRun(n + 1) == [0] + ZeroRun(n);
    assert forall i | 0 <= i < n + 1 :: (ZeroRun(n) + [0])[i] == 0;
  }
}
