/** Adaptive Shannon-Fano coder (sf.c).

    The table lists the events seen so far with their number of occurrences,
    most frequent first, and always holds the ESCAPE event. A table position
    is coded by splitting the position range in two halves of balanced
    occurrences, one bit per split. A value absent from the table is sent
    as ESCAPE followed by its 32 raw bits. After each event the encoder and
    the decoder update their tables the same way, so the table never has to
    be transmitted.
 */
module ShannonFano {
  import opened Results
  import opened Bit
  import opened Bits

  /** An event value and its number of occurrences. */
  datatype Event = Event(value: Int32, count: nat)

  /** The events of a coder, indexed by position. */
  type Table = seq<Event>

  /** VALEUR_ESCAPE, the largest int. */
  const Escape: Int32 := 0x7fff_ffff

  /** The number of entries the table array can hold. */
  const Capacity: nat := 200000

  // ---------------------------------------------------------------------
  // The table and its invariant.

  /** Occurrence counts never increase with the position. */
  predicate Sorted(t: Table)
  {
    forall i | 0 < i < |t| :: t[i - 1].count >= t[i].count
  }

  /** Some entry has the value `v`. */
  predicate Contains(t: Table, v: int)
  {
    exists i | 0 <= i < |t| :: t[i].value == v
  }

  /** sf_table_ok: the counts are sorted and ESCAPE is present. */
  predicate TableOk(t: Table)
  {
    Sorted(t) && Contains(t, Escape)
  }

  /** What every table the coder builds satisfies: sf_table_ok, and every
      event has occurred at least once. */
  predicate Valid(t: Table)
  {
    TableOk(t) && forall i | 0 <= i < |t| :: t[i].count >= 1
  }

  /** No two entries hold the same value; in a table that holds ESCAPE,
      ESCAPE is then present exactly once (EscapeOnce). */
  predicate Distinct(t: Table)
  {
    forall i, j | 0 <= i < j < |t| :: t[i].value != t[j].value
  }

  /** A table with distinct values that holds ESCAPE holds it at exactly
      one position. */
  lemma EscapeOnce(t: Table)
    requires Distinct(t) && Contains(t, Escape)
    ensures exists e | 0 <= e < |t| :: t[e].value == Escape && forall j | 0 <= j < |t| && j != e :: t[j].value != Escape
  {
    var e :| 0 <= e < |t| && t[e].value == Escape;
    forall j | 0 <= j < |t| && j != e
      ensures t[j].value != Escape
    {
      if j < e {
        assert t[j].value != t[e].value;
      } else {
        assert t[e].value != t[j].value;
      }
    }
  }

  /** sf_table_ok as the loop of the source: one pass checking each count
      against the previous one and looking for ESCAPE. */
  method TableOkCheck(t: Table) returns (ok: bool)
    ensures ok <==> TableOk(t)
  {
    var escape := false;
    var i := 0;
    while i < |t|
      invariant 0 <= i <= |t|
      invariant forall j | 0 < j < i :: t[j - 1].count >= t[j].count
      invariant escape <==> exists j | 0 <= j < i :: t[j].value == Escape
    {
      if i != 0 && t[i - 1].count < t[i].count {
        return false;
      }
      if t[i].value == Escape {
        escape := true;
      }
      i := i + 1;
    }
    return escape;
  }

  /** open_shannon_fano: the table holds ESCAPE alone, seen once. */
  function Open(): (t: Table)
    ensures Valid(t) && Distinct(t)
    ensures |t| == 1 && t[0].value == Escape && t[0].count == 1
  {
    var t := [Event(Escape, 1)];
    assert t[0].value == Escape;
    t
  }

  // ---------------------------------------------------------------------
  // Lookup.

  /** The first position at or after `i` holding `v`, or |t| if none. */
  function Find(t: Table, v: int, i: nat): (r: nat)
    requires i <= |t|
    ensures i <= r <= |t|
    ensures forall j | i <= j < r :: t[j].value != v
    ensures r < |t| ==> t[r].value == v
    decreases |t| - i
  {
    if i == |t| then |t|
    else if t[i].value == v then i
    else Find(t, v, i + 1)
  }

  /** trouve_position: the first position of `v`, or else the first
      position of ESCAPE (the source recurses on ESCAPE, which must be
      present for the search to end). */
  function TrouvePosition(t: Table, v: Int32): (p: nat)
    requires Contains(t, Escape)
    ensures p < |t|
    ensures Contains(t, v) ==> t[p].value == v && forall j | 0 <= j < p :: t[j].value != v
    ensures !Contains(t, v) ==> t[p].value == Escape && forall j | 0 <= j < p :: t[j].value != Escape
  {
    var i := Find(t, v, 0);
    if i < |t| then i else Find(t, Escape, 0)
  }

  // ---------------------------------------------------------------------
  // The split search.

  /** The occurrences of the positions lo .. hi - 1. */
  function Sum(t: Table, lo: nat, hi: nat): nat
    requires lo <= hi <= |t|
    decreases hi - lo
  {
    if lo == hi then 0 else t[lo].count + Sum(t, lo + 1, hi)
  }

  /** The occurrences of the lower side lo .. sep of a split. */
  function Below(t: Table, lo: nat, sep: nat): nat
    requires lo <= sep < |t|
  {
    Sum(t, lo, sep + 1)
  }

  /** The occurrences of the upper side sep + 1 .. hi of a split. */
  function Above(t: Table, sep: nat, hi: nat): nat
    requires sep <= hi < |t|
  {
    Sum(t, sep + 1, hi + 1)
  }

  function Abs(x: int): nat
  {
    if x < 0 then -x else x
  }

  /** How unbalanced the split of lo .. hi after position `sep` is: the
      difference between the occurrences on each side. */
  function Imbalance(t: Table, lo: nat, sep: nat, hi: nat): nat
    requires lo <= sep < hi < |t|
  {
    Abs(Below(t, lo, sep) - Above(t, sep, hi))
  }

  /** The loop of trouve_separation: the side with fewer occurrences grows
      by one position (the upper side only when strictly smaller) until the
      two sides meet. */
  function SeparationLoop(t: Table, lo: nat, hi: nat, sumMin: nat, sumMax: nat): (sep: nat)
    requires lo < hi < |t|
    ensures lo <= sep < hi
    decreases hi - lo
  {
    if lo == hi - 1 then lo
    else if sumMax < sumMin then SeparationLoop(t, lo, hi - 1, sumMin, sumMax + t[hi - 1].count)
    else SeparationLoop(t, lo + 1, hi, sumMin + t[lo + 1].count, sumMax)
  }

  /** trouve_separation: the last position of the frequent half of lo .. hi. */
  function Separation(t: Table, lo: nat, hi: nat): (sep: nat)
    requires lo < hi < |t|
    ensures lo <= sep < hi
  {
    SeparationLoop(t, lo, hi, t[lo].count, t[hi].count)
  }

  /** trouve_separation as the loop of the source: the same separation,
      and no split of lo .. hi is better balanced. */
  method TrouveSeparation(t: Table, lo: nat, hi: nat) returns (sep: nat)
    requires lo < hi < |t|
    ensures lo <= sep < hi
    ensures sep == Separation(t, lo, hi)
    ensures forall s | lo <= s < hi :: Imbalance(t, lo, sep, hi) <= Imbalance(t, lo, s, hi)
  {
    var low, high := lo, hi;
    var sumMin, sumMax := t[lo].count, t[hi].count;
    assert Sum(t, lo + 1, lo + 1) == 0 && Sum(t, hi + 1, hi + 1) == 0;
    while low != high - 1
      invariant lo <= low < high <= hi
      invariant sumMin == Below(t, lo, low) && sumMax == Above(t, high - 1, hi)
      invariant forall s | lo <= s < low :: Below(t, lo, s) <= sumMax
      invariant forall s | high <= s < hi :: Above(t, s, hi) < sumMin
      invariant SeparationLoop(t, low, high, sumMin, sumMax) == Separation(t, lo, hi)
      decreases high - low
    {
      if sumMax < sumMin {
        high := high - 1;
        assert Above(t, high - 1, hi) == t[high].count + sumMax;
        sumMax := sumMax + t[high].count;
      } else {
        low := low + 1;
        SumSplit(t, lo, low, low + 1);
        assert Sum(t, low + 1, low + 1) == 0;
        sumMin := sumMin + t[low].count;
      }
    }
    sep := low;
    forall s | lo <= s < hi
      ensures Imbalance(t, lo, sep, hi) <= Imbalance(t, lo, s, hi)
    {
      SplitNoWorse(t, lo, hi, sep, s, sumMin, sumMax);
    }
  }

  /** The separation minimises the difference between the occurrences of
      the two halves: no other split of lo .. hi is better balanced. */
  lemma SeparationBalances(t: Table, lo: nat, hi: nat)
    requires lo < hi < |t|
    ensures forall s | lo <= s < hi :: Imbalance(t, lo, Separation(t, lo, hi), hi) <= Imbalance(t, lo, s, hi)
  {
    assert Sum(t, lo + 1, lo + 1) == 0 && Sum(t, hi + 1, hi + 1) == 0;
    assert Below(t, lo, lo) == t[lo].count;
    assert Above(t, hi - 1, hi) == t[hi].count;
    SeparationLoopBalances(t, lo, hi, lo, hi, t[lo].count, t[hi].count);
  }

  /** The loop invariant behind SeparationBalances: every position the lower
      side has passed was at most the upper side's sum when it was passed,
      and every position the upper side has passed was below the lower
      side's sum. */
  lemma {:induction false} SeparationLoopBalances(t: Table, lo0: nat, hi0: nat, lo: nat, hi: nat, sumMin: nat, sumMax: nat)
    requires lo0 <= lo < hi <= hi0 < |t|
    requires sumMin == Below(t, lo0, lo) && sumMax == Above(t, hi - 1, hi0)
    requires forall s | lo0 <= s < lo :: Below(t, lo0, s) <= sumMax
    requires forall s | hi <= s < hi0 :: Above(t, s, hi0) < sumMin
    ensures forall s | lo0 <= s < hi0 ::
      Imbalance(t, lo0, SeparationLoop(t, lo, hi, sumMin, sumMax), hi0) <= Imbalance(t, lo0, s, hi0)
    decreases hi - lo
  {
    if lo == hi - 1 {
      forall s | lo0 <= s < hi0
        ensures Imbalance(t, lo0, lo, hi0) <= Imbalance(t, lo0, s, hi0)
      {
        SplitNoWorse(t, lo0, hi0, lo, s, sumMin, sumMax);
      }
    } else if sumMax < sumMin {
      assert Above(t, hi - 2, hi0) == t[hi - 1].count + sumMax;
      SeparationLoopBalances(t, lo0, hi0, lo, hi - 1, sumMin, sumMax + t[hi - 1].count);
    } else {
      SumSplit(t, lo0, lo + 1, lo + 2);
      assert Sum(t, lo + 2, lo + 2) == 0;
      SeparationLoopBalances(t, lo0, hi0, lo + 1, hi, sumMin + t[lo + 1].count, sumMax);
    }
  }

  /** Where the two sides meet, at `sep`, no other split `s` is better
      balanced: the lower side of an earlier split was at most the upper
      side's sum, the upper side of a later one was below the lower side's. */
  lemma SplitNoWorse(t: Table, lo0: nat, hi0: nat, sep: nat, s: nat, sumMin: nat, sumMax: nat)
    requires lo0 <= sep < hi0 < |t| && lo0 <= s < hi0
    requires sumMin == Below(t, lo0, sep) && sumMax == Above(t, sep, hi0)
    requires s < sep ==> Below(t, lo0, s) <= sumMax
    requires s > sep ==> Above(t, s, hi0) < sumMin
    ensures Imbalance(t, lo0, sep, hi0) <= Imbalance(t, lo0, s, hi0)
  {
    SumSplit(t, lo0, s + 1, hi0 + 1);
    SumSplit(t, lo0, sep + 1, hi0 + 1);
    if s < sep {
      SumSplit(t, lo0, s + 1, sep + 1);
    } else if s > sep {
      SumSplit(t, lo0, sep + 1, s + 1);
    }
  }

  /** Equal counts break toward the lower half: of three events seen once,
      the first two form the frequent half; with counts 2, 1, 1 the first
      event is a half on its own. */
  lemma SeparationExamples()
    ensures Separation([Event(1, 1), Event(2, 1), Event(3, 1)], 0, 2) == 1
    ensures Separation([Event(1, 2), Event(2, 1), Event(3, 1)], 0, 2) == 0
  {
  }

  // ---------------------------------------------------------------------
  // Position codes.

  /** The loop of encode_position over the range lo .. hi: 1 when the
      position lies above the separation, 0 otherwise, until the range is
      a single position. */
  function EncodeRange(t: Table, lo: nat, hi: nat, p: nat): (r: seq<bool>)
    requires lo <= p <= hi < |t|
    ensures |r| <= hi - lo
    decreases hi - lo
  {
    if lo == hi then []
    else
      var sep := Separation(t, lo, hi);
      if p > sep then [true] + EncodeRange(t, sep + 1, hi, p)
      else [false] + EncodeRange(t, lo, sep, p)
  }

  /** The loop of decode_position over the range lo .. hi: each bit read
      keeps the upper half (1) or the lower half (0) of the separation. */
  function DecodeRange(t: Table, lo: nat, hi: nat, input: seq<bool>): (r: Result<(nat, seq<bool>)>)
    requires lo <= hi < |t|
    ensures r.Ok? ==> lo <= r.value.0 <= hi
    ensures r.Err? ==> r.error == EndOfInput
    decreases hi - lo
  {
    if lo == hi then Ok((lo, input))
    else
      var sep := Separation(t, lo, hi);
      var (bit, rest) :- TakeBit(input);
      if bit then DecodeRange(t, sep + 1, hi, rest) else DecodeRange(t, lo, sep, rest)
  }

  /** encode_position: the code of position p in the whole table. */
  function EncodePosition(t: Table, p: nat): (r: seq<bool>)
    requires p < |t|
    ensures |r| < |t|
  {
    EncodeRange(t, 0, |t| - 1, p)
  }

  /** decode_position: reads a position of the whole table. */
  function DecodePosition(t: Table, input: seq<bool>): (r: Result<(nat, seq<bool>)>)
    requires |t| > 0
    ensures r.Ok? ==> r.value.0 < |t|
    ensures r.Err? ==> r.error == EndOfInput
  {
    DecodeRange(t, 0, |t| - 1, input)
  }

  /** Decoding a range reads back the position its code was made for and
      consumes exactly the code. */
  lemma {:induction false} DecodeEncodeRange(t: Table, lo: nat, hi: nat, p: nat, rest: seq<bool>)
    requires lo <= p <= hi < |t|
    ensures DecodeRange(t, lo, hi, EncodeRange(t, lo, hi, p) + rest) == Ok((p, rest))
    decreases hi - lo
  {
    if lo == hi {
      assert EncodeRange(t, lo, hi, p) + rest == rest;
    } else {
      var sep := Separation(t, lo, hi);
      var bit := p > sep;
      var lo', hi' := if bit then sep + 1 else lo, if bit then hi else sep;
      var tail := EncodeRange(t, lo', hi', p);
      EncodeRangeStep(t, lo, hi, p, sep, bit, lo', hi');
      DecodeEncodeRange(t, lo', hi', p, rest);
      assert EncodeRange(t, lo, hi, p) + rest == [bit] + (tail + rest);
      DecodeRangeStep(t, lo, hi, sep, bit, tail + rest, lo', hi');
    }
  }

  /** One step of EncodeRange: the side of the separation, then the code
      within that side. */
  lemma EncodeRangeStep(t: Table, lo: nat, hi: nat, p: nat, sep: nat, bit: bool, lo': nat, hi': nat)
    requires lo <= p <= hi < |t| && lo < hi && sep == Separation(t, lo, hi)
    requires bit == (p > sep)
    requires lo' == (if bit then sep + 1 else lo) && hi' == (if bit then hi else sep)
    ensures lo' <= p <= hi'
    ensures EncodeRange(t, lo, hi, p) == [bit] + EncodeRange(t, lo', hi', p)
  {
  }

  /** One step of DecodeRange: the first bit picks the side. */
  lemma DecodeRangeStep(t: Table, lo: nat, hi: nat, sep: nat, bit: bool, rest: seq<bool>, lo': nat, hi': nat)
    requires lo < hi < |t| && sep == Separation(t, lo, hi)
    requires lo' == (if bit then sep + 1 else lo) && hi' == (if bit then hi else sep)
    ensures lo' <= hi'
    ensures DecodeRange(t, lo, hi, [bit] + rest) == DecodeRange(t, lo', hi', rest)
  {
    assert TakeBit([bit] + rest) == Ok((bit, rest));
  }

  /** decode_position inverts encode_position on the same table. */
  lemma DecodeEncodePosition(t: Table, p: nat, rest: seq<bool>)
    requires p < |t|
    ensures DecodePosition(t, EncodePosition(t, p) + rest) == Ok((p, rest))
  {
    DecodeEncodeRange(t, 0, |t| - 1, p, rest);
  }

  /** encode_position as the loop of the source: one bit per split, the
      range narrowing to the side of the separation that holds p. */
  method EncodePositionLoop(t: Table, p: nat) returns (bits: seq<bool>)
    requires p < |t|
    ensures bits == EncodePosition(t, p)
    ensures |bits| < |t|
  {
    var lo, hi := 0, |t| - 1;
    bits := [];
    while lo != hi
      invariant lo <= p <= hi < |t|
      invariant bits + EncodeRange(t, lo, hi, p) == EncodePosition(t, p)
      decreases hi - lo
    {
      var sep := TrouveSeparation(t, lo, hi);
      var bit := p > sep;
      var lo', hi' := if bit then sep + 1 else lo, if bit then hi else sep;
      EncodeRangeStep(t, lo, hi, p, sep, bit, lo', hi');
      AppendAssoc(bits, [bit], EncodeRange(t, lo', hi', p));
      bits := bits + [bit];
      lo, hi := lo', hi';
    }
    assert bits + [] == bits;
  }

  /** decode_position as the loop of the source: each bit read keeps one
      side of the separation until a single position is left. */
  method DecodePositionLoop(t: Table, input: seq<bool>) returns (r: Result<(nat, seq<bool>)>)
    requires |t| > 0
    ensures r == DecodePosition(t, input)
    ensures r.Ok? ==> r.value.0 < |t|
  {
    var lo, hi := 0, |t| - 1;
    var rest := input;
    while lo != hi
      invariant lo <= hi < |t|
      invariant DecodeRange(t, lo, hi, rest) == DecodePosition(t, input)
      decreases hi - lo
    {
      var sep := TrouveSeparation(t, lo, hi);
      if |rest| == 0 {
        return Err(EndOfInput);
      }
      var bit := rest[0];
      var lo', hi' := if bit then sep + 1 else lo, if bit then hi else sep;
      HeadTail(rest);
      DecodeRangeStep(t, lo, hi, sep, bit, rest[1..], lo', hi');
      lo, hi, rest := lo', hi', rest[1..];
    }
    return Ok((lo, rest));
  }

  /** A one-entry table codes its only position with no bits at all. */
  lemma SingleEntryCode(t: Table, input: seq<bool>)
    requires |t| == 1
    ensures EncodePosition(t, 0) == []
    ensures DecodePosition(t, input) == Ok((0, input))
  {
  }

  // ---------------------------------------------------------------------
  // Reordering.

  /** The first position in i .. p - 1 whose count is below c, or p. */
  function FirstBelow(t: Table, p: nat, c: nat, i: nat): (q: nat)
    requires i <= p <= |t|
    ensures i <= q <= p
    ensures forall j | i <= j < q :: t[j].count >= c
    ensures q < p ==> t[q].count < c
    decreases p - i
  {
    if i == p then p
    else if t[i].count < c then i
    else FirstBelow(t, p, c, i + 1)
  }

  /** Where incremente_et_ordonne moves the event at p: the first earlier
      position whose count is below the raised count, or p itself. */
  function Rise(t: Table, p: nat): nat
    requires p < |t|
  {
    FirstBelow(t, p, t[p].count + 1, 0)
  }

  /** incremente_et_ordonne: the count at p grows by one, then the event
      changes places with the first earlier event whose count is now
      strictly smaller, if any. */
  function Increment(t: Table, p: nat): (r: Table)
    requires p < |t|
    ensures |r| == |t|
  {
    var raised := t[p := Event(t[p].value, t[p].count + 1)];
    if p == 0 then raised
    else
      var q := FirstBelow(raised, p, raised[p].count, 0);
      if q == p then raised
      else raised[q := raised[p]][p := raised[q]]
  }

  /** incremente_et_ordonne puts the raised event at Rise(t, p), the event
      it displaces at p, and changes nothing else. */
  lemma IncrementMoves(t: Table, p: nat)
    requires p < |t|
    ensures Rise(t, p) <= p
    ensures forall j | 0 <= j < Rise(t, p) :: t[j].count > t[p].count
    ensures Rise(t, p) < p ==> t[Rise(t, p)].count <= t[p].count
    ensures Increment(t, p)[Rise(t, p)] == Event(t[p].value, t[p].count + 1)
    ensures Rise(t, p) < p ==> Increment(t, p)[p] == t[Rise(t, p)]
    ensures forall j | 0 <= j < |t| && j != p && j != Rise(t, p) :: Increment(t, p)[j] == t[j]
  {
    var raised := t[p := Event(t[p].value, t[p].count + 1)];
    if p > 0 {
      FirstBelowSame(t, raised, p, t[p].count + 1, 0);
    }
  }

  /** incremente_et_ordonne keeps the coder's invariant. */
  lemma IncrementValid(t: Table, p: nat)
    requires p < |t| && Valid(t)
    ensures Valid(Increment(t, p))
  {
    var r := Increment(t, p);
    var q := Rise(t, p);
    IncrementMoves(t, p);
    SortedPairs(t);
    forall i | 0 < i < |r|
      ensures r[i - 1].count >= r[i].count
    {
      if q < p && q < i <= p {
        assert t[i].count == t[p].count by {
          assert t[q].count >= t[i].count >= t[p].count;
        }
        if i - 1 != q {
          assert t[i - 1].count == t[p].count;
        }
      }
    }
    var e :| 0 <= e < |t| && t[e].value == Escape;
    if e == q {
      assert r[p].value == Escape;
    } else if e == p {
      assert r[q].value == Escape;
    } else {
      assert r[e].value == Escape;
    }
  }

  /** incremente_et_ordonne only touches positions up to p: an entry added
      at the end is left where it is. */
  lemma IncrementAppend(t: Table, p: nat, e: Event)
    requires p < |t|
    ensures Increment(t + [e], p) == Increment(t, p) + [e]
  {
    var raised := t[p := Event(t[p].value, t[p].count + 1)];
    var raised' := (t + [e])[p := Event(t[p].value, t[p].count + 1)];
    assert raised' == raised + [e];
    if p > 0 {
      FirstBelowSame(raised, raised', p, t[p].count + 1, 0);
    }
  }

  /** The position of t whose value incremente_et_ordonne puts at j: the
      raised event and the one it displaces change places, the others stay. */
  function Origin(t: Table, p: nat, j: nat): nat
    requires p < |t|
  {
    var q := Rise(t, p);
    if j == q then p else if j == p then q else j
  }

  /** incremente_et_ordonne only permutes the values: position j of the
      result holds the value at Origin(t, p, j), and Origin undoes itself. */
  lemma IncrementPermutes(t: Table, p: nat)
    requires p < |t|
    ensures forall j | 0 <= j < |t| :: Origin(t, p, j) < |t| && Increment(t, p)[j].value == t[Origin(t, p, j)].value
    ensures forall j | 0 <= j < |t| :: Origin(t, p, Origin(t, p, j)) == j
  {
    IncrementMoves(t, p);
  }

  /** incremente_et_ordonne keeps the same set of values, and its result has
      distinct values exactly when the table it started from had. */
  lemma IncrementDistinct(t: Table, p: nat)
    requires p < |t|
    ensures Distinct(Increment(t, p)) <==> Distinct(t)
    ensures forall v :: Contains(Increment(t, p), v) <==> Contains(t, v)
  {
    var r := Increment(t, p);
    IncrementPermutes(t, p);
    if Distinct(t) {
      forall i, j | 0 <= i < j < |r|
        ensures r[i].value != r[j].value
      {
        var a, b := Origin(t, p, i), Origin(t, p, j);
        if a < b {
          assert t[a].value != t[b].value;
        } else if b < a {
          assert t[b].value != t[a].value;
        }
      }
    }
    if Distinct(r) {
      forall i, j | 0 <= i < j < |t|
        ensures t[i].value != t[j].value
      {
        var a, b := Origin(t, p, i), Origin(t, p, j);
        assert r[a].value == t[i].value && r[b].value == t[j].value;
        if a < b {
          assert r[a].value != r[b].value;
        } else if b < a {
          assert r[b].value != r[a].value;
        }
      }
    }
    forall v
      ensures Contains(r, v) <==> Contains(t, v)
    {
      if Contains(r, v) {
        var i :| 0 <= i < |r| && r[i].value == v;
        assert t[Origin(t, p, i)].value == v;
      }
      if Contains(t, v) {
        var i :| 0 <= i < |t| && t[i].value == v;
        assert r[Origin(t, p, i)].value == v;
      }
    }
  }

  /** An event added at the end keeps the values distinct exactly when
      they were and its value is new. */
  lemma AppendDistinct(t: Table, e: Event)
    ensures Distinct(t + [e]) <==> Distinct(t) && !Contains(t, e.value)
  {
    var t' := t + [e];
    if Distinct(t') {
      forall i, j | 0 <= i < j < |t|
        ensures t[i].value != t[j].value
      {
        assert t'[i] == t[i] && t'[j] == t[j];
      }
      forall i | 0 <= i < |t|
        ensures t[i].value != e.value
      {
        assert t'[i] == t[i] && t'[|t|] == e;
      }
    }
  }

  // ---------------------------------------------------------------------
  // Events.

  /** The unsigned long that put_bits receives for an int: its 64-bit two's
      complement. */
  function RawWord(v: Int32): Word
  {
    if v < 0 then WordLimit + v else v
  }

  /** The int that the unsigned int of get_bits becomes: its 32-bit two's
      complement reading. */
  function SignedOf(raw: UInt): Int32
  {
    if raw < 0x8000_0000 then raw else raw - UIntLimit
  }

  /** The 32 bits put_bits emits for an int read back as that int. */
  lemma RawRoundTrip(v: Int32, rest: seq<bool>, raw: UInt)
    requires raw == RawWord(v) % UIntLimit
    ensures GetBits(PutBits(32, RawWord(v)) + rest, 32) == Ok((raw, rest))
    ensures SignedOf(raw) == v
  {
    GetBitsOfPutBits(32, RawWord(v), rest);
    Pow32();
    Pow64();
    PowAdd(32, 32);
    var w := RawWord(v);
    if v < 0 {
      DivModUnique(w, Pow(32), Pow(32) - 1, Pow(32) + v);
    } else {
      DivModUnique(w, Pow(32), 0, v);
    }
  }

  /** put_entier_shannon_fano: the code of the event's position; for the
      ESCAPE position, also the 32 raw bits of the value and a new entry
      (value, 1) at the end; then the position is incremented and
      reordered. Returns the bits and the new table. */
  function PutSymbol(t: Table, v: Int32): (r: (seq<bool>, Table))
    requires Contains(t, Escape) && |t| < Capacity
    ensures Contains(t, v) && v != Escape ==> |r.1| == |t|
    ensures !Contains(t, v) || v == Escape ==> |r.1| == |t| + 1 && r.1[|t|] == Event(v, 1)
  {
    var p := TrouvePosition(t, v);
    var code := EncodePosition(t, p);
    if t[p].value == Escape then
      IncrementAppend(t, p, Event(v, 1));
      (code + PutBits(32, RawWord(v)), Increment(t + [Event(v, 1)], p))
    else (code, Increment(t, p))
  }

  /** get_entier_shannon_fano: reads a position and increments it; an
      ESCAPE position is followed by 32 raw bits giving the value, which
      is added at the end of the table with one occurrence. */
  function GetSymbol(t: Table, input: seq<bool>): (r: Result<(Int32, Table, seq<bool>)>)
    requires 0 < |t| < Capacity
    ensures r.Ok? ==> |t| <= |r.value.1| <= |t| + 1
    ensures r.Err? ==> r.error == EndOfInput
  {
    var (p, in1) :- DecodePosition(t, input);
    var e := t[p].value;
    var t1 := Increment(t, p);
    if e == Escape then
      var (raw, in2) :- GetBits(in1, 32);
      var v := SignedOf(raw);
      Ok((v, t1 + [Event(v, 1)], in2))
    else Ok((e, t1, in1))
  }

  /** Encoding an event keeps the coder's invariant. */
  lemma PutSymbolValid(t: Table, v: Int32)
    requires Valid(t) && |t| < Capacity
    ensures Valid(PutSymbol(t, v).1)
  {
    var p := TrouvePosition(t, v);
    if t[p].value == Escape {
      AppendValid(t, Event(v, 1));
      IncrementValid(t + [Event(v, 1)], p);
    } else {
      IncrementValid(t, p);
    }
  }

  /** Decoding an event keeps the coder's invariant. */
  lemma GetSymbolValid(t: Table, input: seq<bool>)
    requires Valid(t) && |t| < Capacity
    requires GetSymbol(t, input).Ok?
    ensures Valid(GetSymbol(t, input).value.1)
  {
    var (p, in1) := DecodePosition(t, input).value;
    IncrementValid(t, p);
    if t[p].value == Escape {
      var (raw, in2) := GetBits(in1, 32).value;
      AppendValid(Increment(t, p), Event(SignedOf(raw), 1));
    }
  }

  /** put_entier_shannon_fano leaves the values distinct exactly when they
      were and the event is not ESCAPE's own value: encoding that value
      finds the ESCAPE entry and adds a second (ESCAPE, 1) entry. */
  lemma PutSymbolDistinct(t: Table, v: Int32)
    requires Contains(t, Escape) && |t| < Capacity
    ensures Distinct(PutSymbol(t, v).1) <==> Distinct(t) && v != Escape
  {
    var p := TrouvePosition(t, v);
    if t[p].value == Escape {
      var e := Event(v, 1);
      IncrementDistinct(t + [e], p);
      AppendDistinct(t, e);
    } else {
      IncrementDistinct(t, p);
    }
  }

  /** get_entier_shannon_fano leaves the values distinct exactly when they
      were and it did not read, after ESCAPE, a value already in the table. */
  lemma GetSymbolDistinct(t: Table, input: seq<bool>)
    requires 0 < |t| < Capacity
    requires GetSymbol(t, input).Ok?
    ensures Distinct(GetSymbol(t, input).value.1) <==>
            Distinct(t) && (|GetSymbol(t, input).value.1| == |t| || !Contains(t, GetSymbol(t, input).value.0))
  {
    var (p, in1) := DecodePosition(t, input).value;
    IncrementDistinct(t, p);
    if t[p].value == Escape {
      var (raw, in2) := GetBits(in1, 32).value;
      AppendDistinct(Increment(t, p), Event(SignedOf(raw), 1));
    }
  }

  /** From the same table, get_entier_shannon_fano reads back the value
      put_entier_shannon_fano wrote, consumes exactly its bits, and ends
      with the same table as the encoder. */
  lemma GetSymbolOfPutSymbol(t: Table, v: Int32, bits: seq<bool>, t': Table, rest: seq<bool>)
    requires Contains(t, Escape) && |t| < Capacity
    requires PutSymbol(t, v) == (bits, t')
    ensures GetSymbol(t, bits + rest) == Ok((v, t', rest))
  {
    var p := TrouvePosition(t, v);
    var code := EncodePosition(t, p);
    var t1 := Increment(t, p);
    PutSymbolParts(t, v, p, code, t1);
    if t[p].value == Escape {
      var bits := PutBits(32, RawWord(v));
      AppendAssoc(code, bits, rest);
      GetSymbolOfEscape(t, v, rest, p, code, bits, t1);
    } else {
      GetSymbolOfKnown(t, rest, p, code, t1);
    }
  }

  /** The round trip of a value sent after ESCAPE. */
  lemma GetSymbolOfEscape(t: Table, v: Int32, rest: seq<bool>, p: nat, code: seq<bool>, bits: seq<bool>, t1: Table)
    requires 0 < |t| < Capacity && p < |t| && t[p].value == Escape
    requires code == EncodePosition(t, p) && bits == PutBits(32, RawWord(v)) && t1 == Increment(t, p)
    ensures GetSymbol(t, code + (bits + rest)) == Ok((v, t1 + [Event(v, 1)], rest))
  {
    var raw: UInt := RawWord(v) % UIntLimit;
    DecodeEncodePosition(t, p, bits + rest);
    RawRoundTrip(v, rest, raw);
    GetSymbolEscape(t, code + (bits + rest), p, bits + rest, raw, rest, v, t1 + [Event(v, 1)]);
  }

  /** The round trip of a value already in the table. */
  lemma GetSymbolOfKnown(t: Table, rest: seq<bool>, p: nat, code: seq<bool>, t1: Table)
    requires 0 < |t| < Capacity && p < |t| && t[p].value != Escape
    requires code == EncodePosition(t, p) && t1 == Increment(t, p)
    ensures GetSymbol(t, code + rest) == Ok((t[p].value, t1, rest))
  {
    DecodeEncodePosition(t, p, rest);
    GetSymbolPlain(t, code + rest, p, rest, t1);
  }

  /** put_entier_shannon_fano in terms of the position it looks up and
      its code. */
  lemma PutSymbolParts(t: Table, v: Int32, p: nat, code: seq<bool>, t1: Table)
    requires Contains(t, Escape) && |t| < Capacity
    requires p == TrouvePosition(t, v) && code == EncodePosition(t, p) && t1 == Increment(t, p)
    ensures t[p].value == Escape ==> PutSymbol(t, v) == (code + PutBits(32, RawWord(v)), t1 + [Event(v, 1)])
    ensures t[p].value != Escape ==> PutSymbol(t, v) == (code, t1)
  {
    if t[p].value == Escape {
      IncrementAppend(t, p, Event(v, 1));
    }
  }

  /** get_entier_shannon_fano over an ESCAPE position and 32 raw bits. */
  lemma GetSymbolEscape(t: Table, input: seq<bool>, p: nat, in1: seq<bool>, raw: UInt, in2: seq<bool>, v: Int32, t2: Table)
    requires 0 < |t| < Capacity
    requires DecodePosition(t, input) == Ok((p, in1)) && t[p].value == Escape
    requires GetBits(in1, 32) == Ok((raw, in2)) && v == SignedOf(raw)
    requires t2 == Increment(t, p) + [Event(v, 1)]
    ensures GetSymbol(t, input) == Ok((v, t2, in2))
  {
  }

  /** get_entier_shannon_fano over a position of a value already known. */
  lemma GetSymbolPlain(t: Table, input: seq<bool>, p: nat, in1: seq<bool>, t1: Table)
    requires 0 < |t| < Capacity
    requires DecodePosition(t, input) == Ok((p, in1)) && t[p].value != Escape
    requires t1 == Increment(t, p)
    ensures GetSymbol(t, input) == Ok((t[p].value, t1, in1))
  {
  }

  // ---------------------------------------------------------------------
  // Sequences of events.

  /** Successive put_entier_shannon_fano calls: the bits of all events and
      the final table. */
  function PutAll(t: Table, vs: seq<Int32>): (r: (seq<bool>, Table))
    requires Contains(t, Escape) && |t| + |vs| < Capacity
    ensures Contains(r.1, Escape)
    ensures |t| <= |r.1| <= |t| + |vs|
    decreases |vs|
  {
    if |vs| == 0 then ([], t)
    else
      var (bits, t1) := PutSymbol(t, vs[0]);
      PutSymbolKeepsEscape(t, vs[0]);
      var (more, t2) := PutAll(t1, vs[1..]);
      (bits + more, t2)
  }

  /** Successive get_entier_shannon_fano calls reading n events. */
  function GetAll(t: Table, n: nat, input: seq<bool>): (r: Result<(seq<Int32>, Table, seq<bool>)>)
    requires 0 < |t| && |t| + n < Capacity
    ensures r.Ok? ==> |r.value.0| == n && |t| <= |r.value.1| <= |t| + n
    ensures r.Err? ==> r.error == EndOfInput
    decreases n
  {
    if n == 0 then Ok(([], t, input))
    else
      var (v, t1, in1) :- GetSymbol(t, input);
      var (vs, t2, in2) :- GetAll(t1, n - 1, in1);
      Ok(([v] + vs, t2, in2))
  }

  /** A decoder starting from the encoder's table reads back every event
      and ends with the encoder's final table. */
  lemma {:induction false} GetAllOfPutAll(t: Table, vs: seq<Int32>, bits: seq<bool>, t': Table, rest: seq<bool>)
    requires Contains(t, Escape) && |t| + |vs| < Capacity
    requires PutAll(t, vs) == (bits, t')
    ensures GetAll(t, |vs|, bits + rest) == Ok((vs, t', rest))
    decreases |vs|
  {
    if |vs| == 0 {
      assert bits + rest == rest;
    } else {
      var first := PutSymbol(t, vs[0]);
      PutSymbolKeepsEscape(t, vs[0]);
      var others := PutAll(first.1, vs[1..]);
      GetAllOfPutAll(first.1, vs[1..], others.0, others.1, rest);
      PutAllStep(t, vs, first.0, first.1, others.0, others.1);
      GetSymbolOfPutSymbol(t, vs[0], first.0, first.1, others.0 + rest);
      HeadTail(vs);
      GetAllCons(t, |vs|, first.0, others.0, rest, vs[0], first.1, vs[1..], others.1, bits, vs);
    }
  }

  /** The round trip of a whole sequence of events, from any table the
      coder can start from: the decoder reads back the events, consumes
      exactly their bits, and ends with the encoder's table. */
  lemma EncodeDecodeAll(t: Table, vs: seq<Int32>, rest: seq<bool>)
    requires Contains(t, Escape) && |t| + |vs| < Capacity
    ensures GetAll(t, |vs|, PutAll(t, vs).0 + rest) == Ok((vs, PutAll(t, vs).1, rest))
  {
    var (bits, t') := PutAll(t, vs);
    GetAllOfPutAll(t, vs, bits, t', rest);
  }

  /** Any number of put_entier_shannon_fano calls keep the coder's invariant. */
  lemma {:induction false} PutAllValid(t: Table, vs: seq<Int32>)
    requires Valid(t) && |t| + |vs| < Capacity
    ensures Valid(PutAll(t, vs).1)
    decreases |vs|
  {
    if |vs| > 0 {
      var (bits, t1) := PutSymbol(t, vs[0]);
      PutSymbolValid(t, vs[0]);
      PutSymbolKeepsEscape(t, vs[0]);
      PutAllValid(t1, vs[1..]);
      var (more, t2) := PutAll(t1, vs[1..]);
      PutAllStep(t, vs, bits, t1, more, t2);
    }
  }

  /** After any number of put_entier_shannon_fano calls the values are
      distinct exactly when they were at the start and no event was
      ESCAPE's own value. */
  lemma {:induction false} PutAllDistinct(t: Table, vs: seq<Int32>)
    requires Contains(t, Escape) && |t| + |vs| < Capacity
    ensures Distinct(PutAll(t, vs).1) <==> Distinct(t) && Escape !in vs
    decreases |vs|
  {
    if |vs| > 0 {
      var (bits, t1) := PutSymbol(t, vs[0]);
      PutSymbolDistinct(t, vs[0]);
      PutSymbolKeepsEscape(t, vs[0]);
      PutAllDistinct(t1, vs[1..]);
      var (more, t2) := PutAll(t1, vs[1..]);
      PutAllStep(t, vs, bits, t1, more, t2);
      HeadTail(vs);
    }
  }

  /** GetAll reads one event, then the others: the decoding side of the
      step of GetAllOfPutAll. */
  lemma GetAllCons(t: Table, n: nat, first: seq<bool>, more: seq<bool>, rest: seq<bool>, v: Int32, t1: Table,
                   tail: seq<Int32>, t2: Table, bits: seq<bool>, all: seq<Int32>)
    requires 0 < |t| && |t| + n < Capacity && n > 0
    requires GetSymbol(t, first + (more + rest)) == Ok((v, t1, more + rest))
    requires GetAll(t1, n - 1, more + rest) == Ok((tail, t2, rest))
    requires bits == first + more && all == [v] + tail
    ensures GetAll(t, n, bits + rest) == Ok((all, t2, rest))
  {
    AppendAssoc(first, more, rest);
    GetAllStep(t, n, first + (more + rest), v, t1, more + rest, tail, t2, rest, all);
  }

  /** PutAll is the first event's bits followed by the rest's. */
  lemma PutAllStep(t: Table, vs: seq<Int32>, bits: seq<bool>, t1: Table, more: seq<bool>, t2: Table)
    requires Contains(t, Escape) && |t| + |vs| < Capacity && |vs| > 0
    requires PutSymbol(t, vs[0]) == (bits, t1)
    requires Contains(t1, Escape) && |t1| + |vs| - 1 < Capacity
    requires PutAll(t1, vs[1..]) == (more, t2)
    ensures PutAll(t, vs) == (bits + more, t2)
  {
  }

  /** GetAll is one event read followed by the others. */
  lemma GetAllStep(t: Table, n: nat, input: seq<bool>, v: Int32, t1: Table, in1: seq<bool>,
                   vs: seq<Int32>, t2: Table, in2: seq<bool>, all: seq<Int32>)
    requires 0 < |t| && |t| + n < Capacity && n > 0
    requires GetSymbol(t, input) == Ok((v, t1, in1))
    requires GetAll(t1, n - 1, in1) == Ok((vs, t2, in2))
    requires all == [v] + vs
    ensures GetAll(t, n, input) == Ok((all, t2, in2))
  {
  }

  // ---------------------------------------------------------------------
  // Helpers.

  /** put_entier_shannon_fano keeps ESCAPE in the table. */
  lemma PutSymbolKeepsEscape(t: Table, v: Int32)
    requires Contains(t, Escape) && |t| < Capacity
    ensures Contains(PutSymbol(t, v).1, Escape)
  {
    var p := TrouvePosition(t, v);
    var t1 := if t[p].value == Escape then t + [Event(v, 1)] else t;
    var e :| 0 <= e < |t| && t[e].value == Escape;
    assert t1[e].value == Escape;
    IncrementKeepsValue(t1, p, e);
  }

  /** The value at position e is still somewhere after incremente_et_ordonne. */
  lemma IncrementKeepsValue(t: Table, p: nat, e: nat)
    requires p < |t| && e < |t|
    ensures Contains(Increment(t, p), t[e].value)
  {
    IncrementMoves(t, p);
    var r := Increment(t, p);
    var q := Rise(t, p);
    if e == q {
      assert r[p].value == t[e].value;
    } else if e == p {
      assert r[q].value == t[e].value;
    } else {
      assert r[e].value == t[e].value;
    }
  }

  /** FirstBelow only looks at the counts of positions before p. */
  lemma {:induction false} FirstBelowSame(a: Table, b: Table, p: nat, c: nat, i: nat)
    requires i <= p <= |a| && p <= |b|
    requires forall j | i <= j < p :: a[j].count == b[j].count
    ensures FirstBelow(a, p, c, i) == FirstBelow(b, p, c, i)
    decreases p - i
  {
    if i < p && a[i].count >= c {
      FirstBelowSame(a, b, p, c, i + 1);
    }
  }

  /** In a sorted table every earlier count is at least every later one. */
  lemma SortedPairs(t: Table)
    requires Sorted(t)
    ensures forall i, j | 0 <= i <= j < |t| :: t[i].count >= t[j].count
  {
    forall i, j | 0 <= i <= j < |t|
      ensures t[i].count >= t[j].count
    {
      SortedPair(t, i, j);
    }
  }

  lemma {:induction false} SortedPair(t: Table, i: nat, j: nat)
    requires Sorted(t) && i <= j < |t|
    ensures t[i].count >= t[j].count
    decreases j - i
  {
    if i < j {
      SortedPair(t, i, j - 1);
    }
  }

  /** Adding an event seen once at the end of a valid table keeps it valid. */
  lemma AppendValid(t: Table, e: Event)
    requires Valid(t) && e.count == 1
    ensures Valid(t + [e])
  {
    var t' := t + [e];
    var k :| 0 <= k < |t| && t[k].value == Escape;
    assert t'[k].value == Escape;
  }

  /** The occurrences of lo .. hi split at any middle position. */
  lemma {:induction false} SumSplit(t: Table, lo: nat, mid: nat, hi: nat)
    requires lo <= mid <= hi <= |t|
    ensures Sum(t, lo, hi) == Sum(t, lo, mid) + Sum(t, mid, hi)
    decreases mid - lo
  {
    if lo < mid {
      SumSplit(t, lo + 1, mid, hi);
    }
  }
}
