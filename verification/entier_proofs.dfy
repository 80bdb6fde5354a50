/** The prefix code of entier.c decodes what it encodes: the prefixes are
    read back one by one, and get_entier / get_entier_signe invert
    put_entier / put_entier_signe on the values they accept. */
module EntierProofs {
  import opened Results
  import opened Bit
  import opened Bits
  import opened Entier

  /** The 16 prefixes form a prefix-free code: none starts another. */
  lemma PrefixFree()
    ensures forall i, j | 0 <= i < |Prefixes| && 0 <= j < |Prefixes| && i != j ::
      !(PrefixBits(i) <= PrefixBits(j))
  {
    forall i, j | 0 <= i < |Prefixes| && 0 <= j < |Prefixes| && PrefixBits(i) <= PrefixBits(j)
      ensures i == j
    {
      var tail := PrefixBits(j)[|PrefixBits(i)|..];
      assert PrefixBits(j) == PrefixBits(i) + tail;
      ReadPrefixOfPrefix(i, tail);
      ReadPrefixOfPrefix(j, []);
      assert PrefixBits(j) + [] == PrefixBits(j);
    }
  }

  /** The prefix part of get_entier reads back the count of every prefix,
      whatever follows it. */
  lemma ReadPrefixOfPrefix(k: nat, rest: seq<bool>)
    requires k < |Prefixes|
    ensures ReadPrefix(PrefixBits(k) + rest) == Ok((k, rest))
  {
    ReadPrefixExact(k);
    ReadPrefixFrame(PrefixBits(k), rest);
    assert [] + rest == rest;
  }

  /** The prefix part of get_entier over a prefix alone reads its count and
      consumes all of it. */
  lemma ReadPrefixExact(k: nat)
    requires k < |Prefixes|
    ensures ReadPrefix(PrefixBits(k)) == Ok((k, []))
  {
    if k == 0 {
      ReadPrefix0();
    } else if k == 1 {
      ReadPrefix1();
    } else if k == 2 {
      ReadPrefix2();
    } else if k == 3 {
      ReadPrefix3();
    } else if k == 4 {
      ReadPrefix4();
    } else if k == 5 {
      ReadPrefix5();
    } else if k == 6 {
      ReadPrefix6();
    } else if k == 7 {
      ReadPrefix7();
    } else if k == 8 {
      ReadPrefix8();
    } else if k == 9 {
      ReadPrefix9();
    } else if k == 10 {
      ReadPrefix10();
    } else if k == 11 {
      ReadPrefix11();
    } else if k == 12 {
      ReadPrefix12();
    } else if k == 13 {
      ReadPrefix13();
    } else if k == 14 {
      ReadPrefix14();
    } else {
      ReadPrefix15();
    }
  }

  lemma ReadPrefix0()
    ensures ReadPrefix(PrefixBits(0)) == Ok((0, []))
  {
    PrefixCode(0, [false, false], []);
  }

  lemma ReadPrefix1()
    ensures ReadPrefix(PrefixBits(1)) == Ok((1, []))
  {
    PrefixCode(1, [false, true], [false]);
  }

  lemma ReadPrefix2()
    ensures ReadPrefix(PrefixBits(2)) == Ok((2, []))
  {
    PrefixCode(2, [false, true], [true]);
  }

  lemma ReadPrefix3()
    ensures ReadPrefix(PrefixBits(3)) == Ok((3, []))
  {
    PrefixCode(3, [true, false], [false, false]);
  }

  lemma ReadPrefix4()
    ensures ReadPrefix(PrefixBits(4)) == Ok((4, []))
  {
    PrefixCode(4, [true, false], [false, true]);
  }

  lemma ReadPrefix5()
    ensures ReadPrefix(PrefixBits(5)) == Ok((5, []))
  {
    PrefixCode(5, [true, false], [true, false]);
  }

  lemma ReadPrefix6()
    ensures ReadPrefix(PrefixBits(6)) == Ok((6, []))
  {
    PrefixCode(6, [true, false], [true, true]);
  }

  lemma ReadPrefix7()
    ensures ReadPrefix(PrefixBits(7)) == Ok((7, []))
  {
    PrefixCode(7, [true, true], [false, false, false]);
  }

  lemma ReadPrefix8()
    ensures ReadPrefix(PrefixBits(8)) == Ok((8, []))
  {
    PrefixCode(8, [true, true], [false, false, true]);
  }

  lemma ReadPrefix9()
    ensures ReadPrefix(PrefixBits(9)) == Ok((9, []))
  {
    PrefixCode(9, [true, true], [false, true, false]);
  }

  lemma ReadPrefix10()
    ensures ReadPrefix(PrefixBits(10)) == Ok((10, []))
  {
    PrefixCode(10, [true, true], [false, true, true]);
  }

  lemma ReadPrefix11()
    ensures ReadPrefix(PrefixBits(11)) == Ok((11, []))
  {
    PrefixCode(11, [true, true], [true, false, false]);
  }

  lemma ReadPrefix12()
    ensures ReadPrefix(PrefixBits(12)) == Ok((12, []))
  {
    PrefixCode(12, [true, true], [true, false, true]);
  }

  lemma ReadPrefix13()
    ensures ReadPrefix(PrefixBits(13)) == Ok((13, []))
  {
    PrefixCode(13, [true, true], [true, true, false]);
  }

  lemma ReadPrefix14()
    ensures ReadPrefix(PrefixBits(14)) == Ok((14, []))
  {
    assert PrefixBits(14) == [true, true, true, true, true, false];
    WidestGroupExtraBit(false);
  }

  lemma ReadPrefix15()
    ensures ReadPrefix(PrefixBits(15)) == Ok((15, []))
  {
    assert PrefixBits(15) == [true, true, true, true, true, true];
    WidestGroupExtraBit(true);
  }

  /** The prefix of count k split into its group field and its position
      field reads back as k. */
  lemma PrefixCode(k: nat, group: seq<bool>, position: seq<bool>)
    requires k < |Prefixes|
    requires PrefixBits(k) == group + position
    requires |group| == 2 && |position| == Value(group)
    requires Value(position) != 7 && k == Pow2(|position|) - 1 + Value(position)
    ensures ReadPrefix(PrefixBits(k)) == Ok((k, []))
  {
    GroupField(group, position);
    PositionField(position, k);
  }

  /** The two-bit group field selects the group whose position field follows. */
  lemma GroupField(group: seq<bool>, position: seq<bool>)
    requires |group| == 2 && |position| == Value(group)
    ensures |position| < 4 && ReadPrefix(group + position) == ReadInGroup(|position|, position)
  {
    GetBitsOfValue(group, position);
    ReadPrefixStep(group + position, |position|, position);
  }

  /** A position field other than 7 is read whole and names the count
      2^g - 1 + position. */
  lemma PositionField(position: seq<bool>, count: nat)
    requires |position| < 4 && Value(position) != 7
    requires count == Pow2(|position|) - 1 + Value(position)
    ensures ReadInGroup(|position|, position) == Ok((count, []))
  {
    assert position[..|position|] == position;
    assert GetBits(position, |position|) == Ok((Value(position), []));
    ReadInGroupPlain(|position|, position, Value(position), [], count);
  }

  /** After the group 11, the position 7 (bits 111) takes one more bit to
      choose between counts 14 and 15. */
  lemma WidestGroupExtraBit(extra: bool)
    ensures ReadPrefix([true, true, true, true, true, extra]) == Ok((if extra then 15 else 14, []))
  {
    GetBitsOfValue([true, true], [true, true, true, extra]);
    assert [true, true] + [true, true, true, extra] == [true, true, true, true, true, extra];
    ReadPrefixStep([true, true, true, true, true, extra], 3, [true, true, true, extra]);
    GetBitsOfValue([true, true, true], [extra]);
    assert [true, true, true] + [extra] == [true, true, true, extra];
    assert [extra] + [] == [extra];
    ReadInGroupExtra(3, [true, true, true, extra], extra, []);
  }

  /** get_entier reads back every value put_entier accepts, consuming
      exactly its bits. */
  lemma GetEntierOfPutEntier(f: UInt, rest: seq<bool>)
    requires f <= MaxEntier
    ensures GetEntier(PutEntier(f).value + rest) == Ok((f, rest))
  {
    if f <= 1 {
      GetEntierOfShortCode(f, rest);
    } else {
      GetEntierOfLongCode(f, rest);
    }
  }

  /** 0 and 1 are coded by their prefix alone. */
  lemma GetEntierOfShortCode(f: UInt, rest: seq<bool>)
    requires f <= 1
    ensures GetEntier(PutEntier(f).value + rest) == Ok((f, rest))
  {
    NbBitsUtileExamples();
    CountBelow16(f);
    assert PutEntier(f).value == PrefixBits(f);
    ReadPrefixOfPrefix(f, rest);
    GetEntierShort(PrefixBits(f) + rest, f, rest);
  }

  /** A value of k > 1 significant bits is its prefix then its k - 1 low bits. */
  lemma GetEntierOfLongCode(f: UInt, rest: seq<bool>)
    requires 2 <= f <= MaxEntier
    ensures GetEntier(PutEntier(f).value + rest) == Ok((f, rest))
  {
    var k := LongCodeLayout(f);
    var suffix := PutBits(k - 1, f);
    AppendAssoc(PrefixBits(k), suffix, rest);
    LowBits(f, k, rest);
    GetEntierOfPrefixAndBits(PrefixBits(k) + (suffix + rest), k, suffix + rest, f, rest);
  }

  /** A value of k > 1 significant bits is coded as prefix k then its
      k - 1 low bits. */
  lemma LongCodeLayout(f: UInt) returns (k: nat)
    requires 2 <= f <= MaxEntier
    ensures 1 < k < PrefixCount && Pow(k - 1) <= f < Pow(k)
    ensures PutEntier(f).value == PrefixBits(k) + PutBits(k - 1, f)
  {
    k := NbBitsUtile(f);
    NbBitsUtileBounds(f);
    CountBelow16(f);
    assert Pow(0) == 1 && Pow(1) == 2;
  }

  /** The prefix of count k followed by bits that read back as f - 2^(k-1)
      decode as f. */
  lemma GetEntierOfPrefixAndBits(input: seq<bool>, k: nat, after: seq<bool>, f: UInt, rest: seq<bool>)
    requires 1 < k < PrefixCount
    requires Pow(k - 1) <= f
    requires input == PrefixBits(k) + after
    requires GetBits(after, k - 1) == Ok((f - Pow(k - 1), rest))
    ensures GetEntier(input) == Ok((f, rest))
  {
    ReadPrefixOfPrefix(k, after);
    GetEntierLong(input, k, after, f - Pow(k - 1), rest, f);
  }

  /** The k - 1 bits after the prefix read back as f - 2^(k-1). */
  lemma LowBits(f: UInt, k: nat, rest: seq<bool>)
    requires 2 <= k <= 15
    requires Pow(k - 1) <= f < Pow(k)
    ensures GetBits(PutBits(k - 1, f) + rest, k - 1) == Ok((f - Pow(k - 1), rest))
  {
    GetBitsOfPutBits(k - 1, f, rest);
    assert Pow(k) == 2 * Pow(k - 1);
    DivModUnique(f, Pow(k - 1), 1, f - Pow(k - 1));
  }

  /** get_entier_signe reads back every value in [-32768, 32767]. */
  lemma GetEntierSigneOfPutEntierSigne(i: Int32, rest: seq<bool>)
    requires -MaxEntier - 1 <= i <= MaxEntier
    ensures GetEntierSigne(PutEntierSigne(i).value + rest) == Ok((i, rest))
  {
    var m: int := if i < 0 then -(i as int) - 1 else i;
    var code := PutEntier(m).value;
    assert PutEntierSigne(i).value + rest == [i < 0] + (code + rest);
    GetEntierOfPutEntier(m, rest);
  }

  /** The worked examples: 2 -> 0 2, 0 -> 0 0, -1 -> 1 0, -3 -> 1 2. */
  lemma PutEntierSigneExamples()
    ensures PutEntierSigne(2) == Ok([false] + PutEntier(2).value)
    ensures PutEntierSigne(0) == Ok([false] + PutEntier(0).value)
    ensures PutEntierSigne(-1) == Ok([true] + PutEntier(0).value)
    ensures PutEntierSigne(-3) == Ok([true] + PutEntier(2).value)
  {
    assert NbBitsUtile(2) == 2 && NbBitsUtile(0) == 0;
  }

}
