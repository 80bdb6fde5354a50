/** Multi-bit helpers (bits.c).

    The encoders here return the bits they hand to put_bit, in order; the
    decoders read from the sequence of bits a read stream can still deliver
    (`BitStream.Unread`) and return what they decoded with the bits left.
    `BitStream.WriteBitsAppends` and `BitStream.ReadBitsTakes` show that a
    stream delivers exactly these sequences.
 */
module Bits {
  import opened Results
  import opened Bit

  /** 2^32: unsigned int arithmetic wraps modulo this. */
  const UIntLimit: nat := 0x1_0000_0000

  /** An unsigned int. */
  type UInt = x: nat | x < UIntLimit

  /** An int (32 bits). */
  type Int32 = x: int | -0x8000_0000 <= x < 0x8000_0000

  /** The number written by a bit string, most significant bit first. */
  function Value(bits: seq<bool>): (r: nat)
    ensures r < Pow(|bits|)
  {
    if |bits| == 0 then 0
    else (if bits[0] then Pow(|bits| - 1) else 0) + Value(bits[1..])
  }

  /** put_bits: the `nb` low bits of `v`, most significant first. */
  function PutBits(nb: nat, v: Word): (r: seq<bool>)
    requires nb <= 64
    ensures |r| == nb
    ensures forall i | 0 <= i < nb :: r[i] == (PrendBit(v, nb - 1 - i) == 1)
    decreases nb
  {
    if nb == 0 then [] else [PrendBit(v, nb - 1) == 1] + PutBits(nb - 1, v)
  }

  /** The bits put_bits emits spell the value of the `nb` low bits of `v`. */
  lemma {:induction false} PutBitsValue(nb: nat, v: Word)
    requires nb <= 64
    ensures Value(PutBits(nb, v)) == v % Pow(nb)
    decreases nb
  {
    if nb > 0 {
      var bits := PutBits(nb, v);
      assert bits[1..] == PutBits(nb - 1, v);
      PutBitsValue(nb - 1, v);
      ModPowSucc(v, nb - 1);
    }
  }

  /** put_bits(11, 8) emits 00001011. */
  lemma PutBitsExample()
    ensures PutBits(8, 11) == [false, false, false, false, true, false, true, true]
  {
    assert Shr(11, 0) % 2 == 1 && Shr(11, 1) % 2 == 1 && Shr(11, 2) % 2 == 0 && Shr(11, 3) % 2 == 1;
    assert Shr(11, 4) == 0 && Shr(11, 5) == 0 && Shr(11, 6) == 0 && Shr(11, 7) == 0;
  }

  /** get_bit seen on the bits left to read: the first one, or a read error. */
  function TakeBit(input: seq<bool>): (r: Result<(bool, seq<bool>)>)
    ensures r.Ok? <==> input != []
    ensures r.Err? ==> r.error == EndOfInput
    ensures r.Ok? ==> [r.value.0] + r.value.1 == input
  {
    if |input| == 0 then Err(EndOfInput) else Ok((input[0], input[1..]))
  }

  /** The loop of get_bits: `res += bit * pow2(nb)` in unsigned int arithmetic. */
  function GetBitsLoop(input: seq<bool>, nb: nat, res: UInt): Result<(UInt, seq<bool>)>
    requires nb <= 64
    decreases nb
  {
    if nb == 0 then Ok((res, input))
    else
      var (bit, rest) :- TakeBit(input);
      GetBitsLoop(rest, nb - 1, (res + (if bit then Pow2(nb - 1) else 0)) % UIntLimit)
  }

  /** The loop fails, with a read error, exactly when the input runs out. */
  lemma {:induction false} GetBitsLoopFails(input: seq<bool>, nb: nat, res: UInt)
    requires nb <= 64
    ensures GetBitsLoop(input, nb, res).Ok? <==> nb <= |input|
    ensures GetBitsLoop(input, nb, res).Err? ==> GetBitsLoop(input, nb, res).error == EndOfInput
    decreases nb
  {
    if nb > 0 && |input| > 0 {
      GetBitsLoopFails(input[1..], nb - 1, (res + (if input[0] then Pow2(nb - 1) else 0)) % UIntLimit);
    }
  }

  /** Over `bits` followed by anything, the loop consumes `bits` and adds
      their value to `res`, modulo 2^32. */
  lemma {:induction false} GetBitsLoopValue(bits: seq<bool>, rest: seq<bool>, res: UInt, sum: UInt)
    requires |bits| <= 64
    requires sum == (res + Value(bits)) % UIntLimit
    ensures GetBitsLoop(bits + rest, |bits|, res) == Ok((sum, rest))
    decreases |bits|
  {
    if |bits| == 0 {
      assert bits + rest == rest;
      DivModUnique(res, UIntLimit, 0, res);
    } else {
      var nb := |bits|;
      var weight := if bits[0] then Pow2(nb - 1) else 0;
      var res' := (res + weight) % UIntLimit;
      GetBitsLoopStep(bits, rest, res, res');
      AddFirstBit(bits, res, weight, res');
      GetBitsLoopValue(bits[1..], rest, res', sum);
    }
  }

  /** One turn of the loop of get_bits over `bits` followed by anything. */
  lemma GetBitsLoopStep(bits: seq<bool>, rest: seq<bool>, res: UInt, res': UInt)
    requires 0 < |bits| <= 64
    requires res' == (res + (if bits[0] then Pow2(|bits| - 1) else 0)) % UIntLimit
    ensures GetBitsLoop(bits + rest, |bits|, res) == GetBitsLoop(bits[1..] + rest, |bits| - 1, res')
  {
    assert (bits + rest)[0] == bits[0];
    assert (bits + rest)[1..] == bits[1..] + rest;
  }

  /** Adding the first bit's weight then the value of the others, modulo
      2^32, adds the value of all the bits. */
  lemma AddFirstBit(bits: seq<bool>, res: UInt, weight: nat, res': UInt)
    requires 0 < |bits| <= 64
    requires weight == (if bits[0] then Pow2(|bits| - 1) else 0)
    requires res' == (res + weight) % UIntLimit
    ensures (res' + Value(bits[1..])) % UIntLimit == (res + Value(bits)) % UIntLimit
  {
    assert Value(bits) == weight + Value(bits[1..]);
    ModAddMod(res + weight, Value(bits[1..]), UIntLimit);
  }

  /** get_bits: reads `nb` bits, the first one most significant. */
  function GetBits(input: seq<bool>, nb: nat): (r: Result<(UInt, seq<bool>)>)
    requires nb <= 64
    ensures r.Ok? <==> nb <= |input|
    ensures r.Err? ==> r.error == EndOfInput
    ensures r.Ok? ==> r.value.1 == input[nb..]
    ensures r.Ok? && nb <= 32 ==> r.value.0 == Value(input[..nb]) < Pow(nb)
  {
    GetBitsLoopFails(input, nb, 0);
    if nb <= |input| && nb <= 32 then
      assert input == input[..nb] + input[nb..];
      ValueFitsUInt(input[..nb]);
      GetBitsLoopValue(input[..nb], input[nb..], 0, Value(input[..nb]) % UIntLimit);
      GetBitsLoop(input, nb, 0)
    else if nb <= |input| then
      assert input == input[..nb] + input[nb..];
      GetBitsLoopValue(input[..nb], input[nb..], 0, Value(input[..nb]) % UIntLimit);
      GetBitsLoop(input, nb, 0)
    else GetBitsLoop(input, nb, 0)
  }

  /** get_bits over the bits put_bits emitted returns v mod 2^nb. */
  lemma GetBitsOfPutBits(nb: nat, v: Word, rest: seq<bool>)
    requires nb <= 32
    ensures GetBits(PutBits(nb, v) + rest, nb) == Ok((v % Pow(nb), rest))
  {
    var bits := PutBits(nb, v);
    assert (bits + rest)[..nb] == bits;
    assert (bits + rest)[nb..] == rest;
    PutBitsValue(nb, v);
  }

  /** get_bits of `|bits|` bits over `bits` followed by anything returns
      their value and the rest. */
  lemma GetBitsOfValue(bits: seq<bool>, rest: seq<bool>)
    requires |bits| <= 32
    ensures GetBits(bits + rest, |bits|) == Ok((Value(bits), rest))
  {
    assert (bits + rest)[..|bits|] == bits;
    assert (bits + rest)[|bits|..] == rest;
  }

  /** get_bits reads only the bits it needs: bits appended after the input
      are left unread and do not change the value. */
  lemma GetBitsFrame(input: seq<bool>, nb: nat, more: seq<bool>)
    requires nb <= 32 && nb <= |input|
    ensures GetBits(input + more, nb) == Ok((GetBits(input, nb).value.0, GetBits(input, nb).value.1 + more))
  {
    assert (input + more)[..nb] == input[..nb];
    assert (input + more)[nb..] == input[nb..] + more;
  }

  /** Two-bit reads: 00 gives 0, 01 gives 1, 10 gives 2, 11 gives 3. */
  lemma GetBitsExamples()
    ensures GetBits([false, false], 2) == Ok((0, []))
    ensures GetBits([false, true], 2) == Ok((1, []))
    ensures GetBits([true, false], 2) == Ok((2, []))
    ensures GetBits([true, true], 2) == Ok((3, []))
  {
    GetBitsOfValue([false, false], []);
    GetBitsOfValue([false, true], []);
    GetBitsOfValue([true, false], []);
    GetBitsOfValue([true, true], []);
  }

  /** put_bit_string: one bit per character before the terminating NUL,
      0 for the character '0' and 1 for any other. */
  function PutBitString(str: string): (r: seq<bool>)
    ensures |r| <= |str|
  {
    if |str| == 0 || str[0] == '\0' then []
    else [str[0] != '0'] + PutBitString(str[1..])
  }

  /** put_bit_string emits one bit per character up to the first NUL: 0 for
      '0' and 1 for any other character. */
  lemma {:induction false} PutBitStringBits(str: string)
    ensures forall i | 0 <= i < |PutBitString(str)| ::
      PutBitString(str)[i] == (str[i] != '0') && str[i] != '\0'
    ensures |PutBitString(str)| < |str| ==> str[|PutBitString(str)|] == '\0'
  {
    if |str| > 0 && str[0] != '\0' {
      PutBitStringBits(str[1..]);
    }
  }

  // ---------------------------------------------------------------------
  // Arithmetic helpers.

  lemma ValueFitsUInt(bits: seq<bool>)
    requires |bits| <= 32
    ensures Value(bits) < UIntLimit
    ensures Value(bits) % UIntLimit == Value(bits)
  {
    PowMonotone(|bits|, 32);
    Pow32();
    DivModUnique(Value(bits), UIntLimit, 0, Value(bits));
  }

  lemma ModAddMod(a: nat, c: nat, m: nat)
    requires m > 0
    ensures (a % m + c) % m == (a + c) % m
  {
    var q := a / m;
    assert a == q * m + a % m;
    var k := (a % m + c) / m;
    var r := (a % m + c) % m;
    assert a % m + c == k * m + r;
    assert a + c == (q + k) * m + r;
    DivModUnique(a + c, m, q + k, r);
  }

  /** v mod 2^(n+1) adds bit n, weighted 2^n, to v mod 2^n. */
  lemma ModPowSucc(v: Word, n: nat)
    requires n < 64
    ensures v % Pow(n + 1) == (if PrendBit(v, n) == 1 then Pow(n) else 0) + v % Pow(n)
  {
    var P := Pow(n);
    var q, low := v / P, v % P;
    var h, b := q / 2, q % 2;
    assert v == q * P + low;
    assert q == 2 * h + b;
    SplitProduct(h, b, P);
    DivModUnique(v, 2 * P, h, b * P + low);
  }

  lemma SplitProduct(h: nat, b: nat, p: nat)
    ensures (2 * h + b) * p == h * (2 * p) + b * p
  {
  }

  /** Bit strings of one length with one value are equal. */
  lemma {:induction false} ValueDeterminesBits(a: seq<bool>, b: seq<bool>)
    requires |a| == |b|
    requires Value(a) == Value(b)
    ensures a == b
  {
    if |a| > 0 {
      ValueDeterminesBits(a[1..], b[1..]);
      assert a == [a[0]] + a[1..];
      assert b == [b[0]] + b[1..];
    }
  }
}
