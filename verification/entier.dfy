/** Static prefix code for integers in [0, 32767] and its signed variant (entier.c).

    A value with k significant bits is written as the k-th prefix of a fixed
    16-entry table followed, when k > 1, by its k - 1 low bits (the leading 1
    is implied). The signed variant writes a sign bit first and codes a
    negative i as -i - 1.
 */
module Entier {
  import opened Results
  import opened Bit
  import opened Bits

  /** The prefix of each significant-bit count 0..15. */
  const Prefixes: seq<string> := [
    "00", "010", "011", "1000", "1001", "1010", "1011",
    "11000", "11001", "11010", "11011", "11100",
    "11101", "11110", "111110", "111111"]

  /** The number of prefixes, one per significant-bit count 0..15. */
  const PrefixCount: nat := 16

  /** The largest value the code covers, 2^15 - 1. */
  const MaxEntier: int := 32767

  /** The bits put_bit_string emits for the prefix of count k. */
  function PrefixBits(k: nat): seq<bool>
    requires k < |Prefixes|
  {
    PutBitString(Prefixes[k])
  }

  /** put_entier: the prefix of f's significant-bit count, then the
      significant bits of f below the leading one; a value with 16
      significant bits or more is refused (the C code exits). */
  function PutEntier(f: UInt): (r: Result<seq<bool>>)
    ensures r.Ok? <==> f <= MaxEntier
    ensures r.Err? ==> r.error == ValueTooLarge
    ensures r.Ok? ==> var k := NbBitsUtile(f);
      && k < |Prefixes|
      && |r.value| == |PrefixBits(k)| + (if k > 1 then k - 1 else 0)
      && r.value[..|PrefixBits(k)|] == PrefixBits(k)
  {
    var k := NbBitsUtile(f);
    CountBelow16(f);
    if k >= |Prefixes| then Err(ValueTooLarge)
    else Ok(PrefixBits(k) + (if k > 1 then PutBits(k - 1, f) else []))
  }

  /** The prefix part of get_entier: two bits give a group g, then the
      rest of the prefix is read within that group. */
  function ReadPrefix(input: seq<bool>): (r: Result<(nat, seq<bool>)>)
    ensures r.Ok? ==> r.value.0 < PrefixCount
    ensures r.Ok? ==> |r.value.1| < |input|
  {
    var (group, in1) :- GetBits(input, 2);
    ReadInGroup(group, in1)
  }

  /** Within group g, g bits give a position; groups start at count
      2^g - 1, and the position 7 of the widest group takes one more bit. */
  function ReadInGroup(group: nat, input: seq<bool>): (r: Result<(nat, seq<bool>)>)
    requires group < 4
    ensures r.Ok? ==> r.value.0 < PrefixCount
    ensures r.Ok? ==> |r.value.1| <= |input|
  {
    var (position, in2) :- GetBits(input, group);
    SmallPow(group);
    var index := (Pow2(group) - 1) + position;
    if position == 7 then
      var (extra, in3) :- TakeBit(in2);
      Ok((index + (if extra then 1 else 0), in3))
    else Ok((index, in2))
  }

  /** get_entier: the prefix gives the significant-bit count k, then
      ReadSignificant reads the value of that many significant bits. */
  function GetEntier(input: seq<bool>): (r: Result<(UInt, seq<bool>)>)
    ensures r.Ok? ==> r.value.0 <= MaxEntier
    ensures r.Ok? ==> |r.value.1| < |input|
  {
    var (count, in1) :- ReadPrefix(input);
    ReadSignificant(count, in1)
  }

  /** The part of get_entier after the prefix: counts 0 and 1 are the
      values themselves, otherwise k - 1 more bits follow and the leading
      one is added back. */
  function ReadSignificant(count: nat, input: seq<bool>): (r: Result<(UInt, seq<bool>)>)
    requires count < PrefixCount
    ensures r.Ok? ==> r.value.0 <= MaxEntier
    ensures r.Ok? ==> |r.value.1| <= |input|
  {
    if count <= 1 then Ok((count, input))
    else
      var (suffix, rest) :- GetBits(input, count - 1);
      LeadingOneBelow(count - 1, suffix);
      Ok((suffix + Pow2(count - 1), rest))
  }

  /** ReadPrefix is the group read followed by ReadInGroup. */
  lemma ReadPrefixStep(input: seq<bool>, group: UInt, after: seq<bool>)
    requires GetBits(input, 2) == Ok((group, after))
    ensures group < 4 && ReadPrefix(input) == ReadInGroup(group, after)
  {
  }

  lemma ReadInGroupPlain(g: nat, input: seq<bool>, position: UInt, rest: seq<bool>, count: nat)
    requires g < 4
    requires GetBits(input, g) == Ok((position, rest))
    requires position != 7 && count == Pow2(g) - 1 + position
    ensures ReadInGroup(g, input) == Ok((count, rest))
  {
  }

  lemma ReadInGroupExtra(g: nat, input: seq<bool>, extra: bool, rest: seq<bool>)
    requires g == 3
    requires GetBits(input, g) == Ok((7, [extra] + rest))
    ensures ReadInGroup(g, input) == Ok((if extra then 15 else 14, rest))
  {
    assert TakeBit([extra] + rest) == Ok((extra, rest));
    assert Pow2(3) == 8;
  }

  /** The prefix reader consumes only the bits it needs: bits appended
      after the input are left unread. */
  lemma ReadPrefixFrame(input: seq<bool>, more: seq<bool>)
    requires ReadPrefix(input).Ok?
    ensures ReadPrefix(input + more) == Ok((ReadPrefix(input).value.0, ReadPrefix(input).value.1 + more))
  {
    var (group, after) := GetBits(input, 2).value;
    GetBitsFrame(input, 2, more);
    ReadInGroupFrame(group, after, more);
  }

  lemma ReadInGroupFrame(group: nat, input: seq<bool>, more: seq<bool>)
    requires group < 4
    requires ReadInGroup(group, input).Ok?
    ensures ReadInGroup(group, input + more)
      == Ok((ReadInGroup(group, input).value.0, ReadInGroup(group, input).value.1 + more))
  {
    GetBitsFrame(input, group, more);
    var (position, after) := GetBits(input, group).value;
    if position == 7 {
      assert after + more == [after[0]] + (after[1..] + more);
    }
  }

  /** get_entier is the prefix read followed by ReadSignificant. */
  lemma GetEntierStep(input: seq<bool>, count: nat, after: seq<bool>)
    requires ReadPrefix(input) == Ok((count, after))
    ensures count < PrefixCount && GetEntier(input) == ReadSignificant(count, after)
  {
  }

  /** get_entier after a prefix of count 0 or 1 returns the count. */
  lemma GetEntierShort(input: seq<bool>, count: nat, after: seq<bool>)
    requires ReadPrefix(input) == Ok((count, after)) && count <= 1
    ensures GetEntier(input) == Ok((count, after))
  {
    GetEntierStep(input, count, after);
  }

  /** get_entier after a prefix of count k > 1 adds 2^(k-1) to the next
      k - 1 bits. */
  lemma GetEntierLong(input: seq<bool>, count: nat, after: seq<bool>, suffix: UInt, rest: seq<bool>, value: UInt)
    requires ReadPrefix(input) == Ok((count, after)) && count > 1
    requires GetBits(after, count - 1) == Ok((suffix, rest))
    requires value == suffix + Pow2(count - 1)
    ensures GetEntier(input) == Ok((value, rest))
  {
    GetEntierStep(input, count, after);
    ReadSignificantLong(count, after, suffix, rest, value);
  }

  lemma ReadSignificantLong(count: nat, after: seq<bool>, suffix: UInt, rest: seq<bool>, value: UInt)
    requires 1 < count < PrefixCount
    requires GetBits(after, count - 1) == Ok((suffix, rest))
    requires value == suffix + Pow2(count - 1)
    ensures ReadSignificant(count, after) == Ok((value, rest))
  {
  }

  /** put_entier_signe: a sign bit, 1 for negative, then put_entier of i
      for i >= 0 and of -i - 1 for i < 0. */
  function PutEntierSigne(i: Int32): (r: Result<seq<bool>>)
    ensures r.Ok? <==> -MaxEntier - 1 <= i <= MaxEntier
    ensures r.Ok? ==> r.value != [] && (r.value[0] <==> i < 0)
  {
    if i < 0 then
      var magnitude: int := -(i as int) - 1;
      var code :- PutEntier(magnitude);
      Ok([true] + code)
    else
      var code :- PutEntier(i);
      Ok([false] + code)
  }

  /** get_entier_signe: a sign bit then a magnitude m; m for sign 0 and
      -m - 1 for sign 1. */
  function GetEntierSigne(input: seq<bool>): (r: Result<(Int32, seq<bool>)>)
    ensures r.Ok? ==> -MaxEntier - 1 <= r.value.0 <= MaxEntier
    ensures r.Ok? ==> |r.value.1| < |input|
  {
    var (negative, in1) :- TakeBit(input);
    var (m, in2) :- GetEntier(in1);
    if negative then Ok((-(m as int) - 1, in2)) else Ok((m, in2))
  }

  // ---------------------------------------------------------------------
  // Helpers.

  /** A value has fewer than 16 significant bits exactly when it is at most 32767. */
  lemma CountBelow16(f: UInt)
    ensures NbBitsUtile(f) < 16 <==> f <= MaxEntier
  {
    var k := NbBitsUtile(f);
    NbBitsUtileBounds(f);
    Pow15();
    if k >= 16 {
      PowMonotone(15, k - 1);
    } else if k > 0 {
      PowMonotone(k, 15);
    }
  }

  lemma Pow15()
    ensures Pow(15) == MaxEntier + 1
  {
    Pow8();
    PowAdd(8, 7);
    assert Pow(7) == 128;
  }

  /** A suffix of `count` bits plus the implied leading one stays a value
      of the code. */
  lemma LeadingOneBelow(count: nat, suffix: nat)
    requires count <= 14
    requires suffix < Pow(count)
    ensures suffix + Pow2(count) <= MaxEntier
  {
    PowMonotone(count, 14);
    Pow15();
  }

  lemma SmallPow(g: nat)
    requires g < 4
    ensures Pow(g) <= 8
  {
    PowMonotone(g, 3);
  }
}
