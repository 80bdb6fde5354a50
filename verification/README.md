# Entropy-coding core of compresseur_imageSon_m2

This project models the bit-level entropy-coding layer of an image and sound
compressor, written in C, in Dafny, and proves its properties. The layer is
built in steps:

- **Bit primitives** (`bit.c`, module `Bit`): the number of significant bits of a
  64-bit word, powers of two, and reading or setting one bit of a word.
- **Bit stream** (`bitstream.c`, module `BitStream`): a file opened either for
  writing or for reading, one byte at a time, through a one-byte buffer. Bits
  go into each byte most significant first, and a final partial byte is padded
  with zeros. The file is a byte sequence and the stream is a pure state
  record.
- **Multi-bit helpers** (`bits.c`, module `Bits`): `put_bits`, `get_bits` and
  `put_bit_string`.
- **Static integer code** (`entier.c`, modules `Entier` and `EntierProofs`):
  - a 16-entry prefix table indexed by the number of significant bits, then the
    value's bits below its leading one;
  - a signed variant that writes a sign bit, then `-i - 1` for a negative `i`.
- **Adaptive Shannon-Fano coder** (`sf.c`, module `ShannonFano`):
  - a table of events sorted by occurrence count and seeded with an ESCAPE
    event;
  - a position in the table is coded by repeatedly splitting the range into two
    halves of balanced occurrences;
  - an unseen value is sent as ESCAPE followed by its 32 raw bits;
  - encoder and decoder update their tables identically after every event.
- **Run-length pass** (`rle.c`, module `Rle`): coefficients are stored as
  (number of zeros, non-zero value) pairs on two streams, plus a final count of
  trailing zeros.

The representation:

- Each encoder is a function that returns the bits it hands to `put_bit`, in
  order.
- Each decoder reads from the bits a read stream still holds and returns the
  decoded value and the bits left.
- `BitStream.WriteBitsAppends` and `BitStream.ReadBitsTakes` show that a stream
  writes and delivers exactly these bit sequences, so the codecs compose with
  the byte stream.
- Failures are values of `Results.Error`, carried by `Results.Result`. In C they
  are exceptions, or `EXIT` in `put_entier`.

Where the source comments and the code disagree, the code is what is modelled.

- `incremente_et_ordonne` swaps the raised event with the first earlier event
  whose count is strictly smaller (sf.c:163). The comment above that line says
  "smaller or equal".
- The ESCAPE value itself needs no special case. Looking it up finds the ESCAPE
  entry, so encoder and decoder both add a second (ESCAPE, 1) entry, and the
  round trip still holds. The table invariants "ESCAPE present exactly once"
  and "each value in at most one entry" therefore hold only while no event is
  ESCAPE's own value: `ShannonFano.PutAllDistinct` proves the values stay
  distinct exactly when none is.

## Model

| member | source | states |
|---|---|---|
| `Bit.NbBitsUtile` | bit.c:16-24 | nb_bits_utile is 0 exactly for the value 0 |
| `Bit.NbBitsUtileBounds` | bit.c:3-24 | a word has at most 64 significant bits; a positive v with n significant bits lies in [2^(n-1), 2^n) |
| `Bit.NbBitsUtileExamples` | bit_tst.c:4-14 | the values 0 .. 8 have 0, 1, 2, 2, 3, 3, 3, 3, 4 significant bits |
| `Bit.NbBitsUtileTopBits` | bit_tst.c:15-21 | 1 << 31 has 32 significant bits and 1 << 63 has 64 |
| `Bit.NbBitsOfPow` | bit.c:16-24 | the word pow2(p) has p + 1 significant bits |
| `Bit.Pow2SingleBit` | bit.c:46-49 | pow2(p) has bit p set and every other bit of the word clear |
| `Bit.Pow2Doubles` | bit_tst.c:24-38 | pow2(0) is 1 and pow2(i + 1) is twice pow2(i) for i < 63 |
| `Bit.PrendBit` | bit.c:60-68 | prend_bit returns only 0 or 1, namely (c / 2^p) mod 2 |
| `Bit.PoseBit` | bit.c:76-89 | pose_bit sets bit p to 0 when the bit argument is 0 and to 1 for any other value, negative ones included, and leaves every other bit unchanged |
| `Bit.PoseBitExamples` | bit_tst.c:73-87 | pose_bit(0,0,2), pose_bit(1,0,2) and pose_bit(1,0,-2) are all 1 |
| `Bit.PoseBitBelow` | bitstream.c:173-174 | setting a bit below position n keeps a value below 2^n, so the stream's buffer stays a byte |
| `Bit.ReassembleBits` | bit_tst.c:52-60 | after k steps of rebuilding a word from prend_bit, bits below k are those of the word and the rest are 0 |
| `Bit.ReassembleAllBits` | bit_tst.c:48-66 | or-ing pow2(k) for every bit k that prend_bit reports set gives back the word |
| `Bit.CopyBitsBits` | bit_tst.c:93-94 | after k steps of copying j into s with pose_bit, bits below k are those of j and the rest those of s |
| `Bit.CopyAllBits` | bit_tst.c:89-100 | copying all 64 bits of j into any s with pose_bit makes s equal to j |
| `Bits.PutBits` | bits.c:11-20 | put_bits emits exactly nb bits, bit nb-1-i of v at index i, so the most significant comes first; nb = 0 emits nothing |
| `Bits.PutBitsValue` | bits.c:4-20 | the bits put_bits emits spell v mod 2^nb |
| `Bits.PutBitsExample` | bits.c:8 | put_bits(8, 11) emits 00001011 |
| `Bits.TakeBit` | bitstream.c:203-221 | reading one bit fails with a read error exactly when no bit is left, and otherwise splits off the first bit |
| `Bits.GetBitsLoopFails` | bits.c:35-39 | the loop of get_bits fails, with a read error, exactly when fewer than nb bits are left |
| `Bits.GetBitsLoopValue` | bits.c:33-40 | the loop of get_bits consumes its bits and adds their value to res modulo 2^32 |
| `Bits.GetBits` | bits.c:23-41 | get_bits succeeds exactly when nb bits are left, consumes exactly nb bits, and for nb <= 32 returns their value, below 2^nb |
| `Bits.GetBitsOfPutBits` | bits.c:11-41 | for nb <= 32, get_bits over what put_bits(nb, v) emitted returns v mod 2^nb and leaves what follows |
| `Bits.GetBitsOfValue` | bits.c:31-41 | get_bits reading as many bits as a bit string holds, over that string followed by anything, returns its value and the rest |
| `Bits.GetBitsFrame` | bits.c:31-41 | get_bits reads only the bits it needs: appending bits after its input changes neither the value nor what is consumed |
| `Bits.GetBitsExamples` | bits.c:26-28 | reading two bits gives 00 -> 0, 01 -> 1, 10 -> 2, 11 -> 3 |
| `Bits.PutBitString` | bits.c:51-61 | put_bit_string emits at most one bit per character |
| `Bits.PutBitStringBits` | bits.c:48-60 | put_bit_string emits one bit per character before the first NUL, 0 for '0' and 1 for any other character, and stops only at a NUL or at the end |
| `BitStream.Open` | bitstream.c:57-65 | the buffer and its count start at 0; the stream writes exactly when the mode does not start with 'r'; a write stream starts with nothing written, a read stream with the whole file unread |
| `BitStream.Flush` | bitstream.c:106-121 | flush changes nothing on a read stream; on a write stream it writes the buffer as one byte exactly when the count is not 0, then empties the buffer |
| `BitStream.FlushPads` | bitstream.c:91-121 | flushing pads the written bits with zeros up to a whole byte |
| `BitStream.Close` | bitstream.c:132-137 | close flushes a write stream first and leaves a read stream unchanged |
| `BitStream.PutBit` | bitstream.c:162-177 | put_bit fails exactly on a read stream; otherwise a full buffer is written out first and the count grows by one, staying within 0 .. 8 |
| `BitStream.PutBitAppends` | bitstream.c:145-177 | put_bit appends exactly its bit to the bits written, most significant first in each byte |
| `BitStream.GetBit` | bitstream.c:203-221 | get_bit fails on a write stream, and with a read error on a read stream with no bit left; an empty buffer is refilled with 8 bits and the count drops by one |
| `BitStream.GetBitTakesFirst` | bitstream.c:180-221 | get_bit returns the first unread bit and leaves the others unread; it fails exactly when none is left |
| `BitStream.Refill` | bitstream.c:208-216 | loading the next byte into an empty buffer changes neither the unread bits nor the result of get_bit |
| `BitStream.GetBitFromBuffer` | bitstream.c:218-220 | with bits in the buffer, get_bit returns the highest unread one and decrements the count |
| `BitStream.WriteBits` | bitstream.c:162-177 | successive put_bit calls succeed exactly on a write stream, or when there is nothing to write |
| `BitStream.WriteBitsAppends` | bitstream.c:162-177 | successive put_bit calls append exactly their bits, in order |
| `BitStream.ReadBitsTakes` | bitstream.c:203-221 | n successive get_bit calls return the first n unread bits and leave the rest, or fail with a read error when fewer are left |
| `BitStream.WriteCloseReadBack` | bitstream.c:106-221 | bits put on a new write stream, closed, then read back from the file they produced come back in order, followed only by less than a byte of zero padding |
| `Entier.PutEntier` | entier.c:42-55 | put_entier refuses exactly the values above 32767; otherwise it emits the prefix of the value's significant-bit count, then k - 1 more bits when k > 1 |
| `Entier.CountBelow16` | entier.c:44-46 | a value has fewer than 16 significant bits exactly when it is at most 32767 |
| `Entier.ReadPrefix` | entier.c:77-84 | the prefix part of get_entier returns a significant-bit count below 16 and consumes at least one bit |
| `Entier.ReadInGroup` | entier.c:78-84 | within a group, the position read names a count below 16 |
| `Entier.ReadInGroupExtra` | entier.c:81-84 | after the group 11, the position 7 reads one more bit, which picks the count 14 or 15 |
| `Entier.ReadPrefixFrame` | entier.c:77-84 | the prefix part of get_entier consumes only the bits it needs |
| `Entier.GetEntier` | entier.c:66-92 | get_entier returns a value of at most 32767 and consumes at least one bit |
| `Entier.ReadSignificant` | entier.c:86-91 | the value read after the prefix, with its implied leading one added back, is at most 32767, and no more bits are left than before |
| `Entier.PutEntierSigne` | entier.c:109-120 | put_entier_signe succeeds exactly on [-32768, 32767] and writes first a sign bit that is 1 exactly for negative values |
| `Entier.GetEntierSigne` | entier.c:125-131 | get_entier_signe returns a value in [-32768, 32767] and consumes at least one bit |
| `EntierProofs.PrefixFree` | entier.c:38-40 | no prefix in the table starts another |
| `EntierProofs.ReadPrefixOfPrefix` | entier.c:38-40 | the prefix part of get_entier reads back the count of every prefix in the table, whatever follows it |
| `EntierProofs.WidestGroupExtraBit` | entier.c:77-84 | the prefixes 111110 and 111111 are read as the counts 14 and 15 |
| `EntierProofs.LongCodeLayout` | entier.c:48-54 | a value with k > 1 significant bits is coded as the prefix of k followed by its k - 1 low bits |
| `EntierProofs.GetEntierOfPutEntier` | entier.c:42-92 | get_entier over what put_entier emitted for any value up to 32767 returns that value and consumes exactly its bits |
| `EntierProofs.GetEntierSigneOfPutEntierSigne` | entier.c:109-131 | get_entier_signe over what put_entier_signe emitted for any value in [-32768, 32767] returns that value and consumes exactly its bits |
| `EntierProofs.PutEntierSigneExamples` | entier.c:100-105 | 2 is coded as 0 then 2, 0 as 0 0, -1 as 1 0, -3 as 1 2 |
| `ShannonFano.TableOkCheck` | sf.c:262-284 | sf_table_ok accepts a table exactly when its counts never increase with the position and it holds ESCAPE |
| `ShannonFano.Open` | sf.c:31-40 | a new coder's table is the single entry (ESCAPE, 1), satisfies the coder's invariant and holds no value twice |
| `ShannonFano.EscapeOnce` | sf.c:31-40 | a table that holds ESCAPE and no value twice holds ESCAPE at exactly one position |
| `ShannonFano.TrouvePosition` | sf.c:57-64 | trouve_position returns the first position of the value when it is present, and the first position of ESCAPE otherwise |
| `ShannonFano.TrouveSeparation` | sf.c:81-117 | for lo < hi, the loop of trouve_separation ends with lo <= sep < hi, and no other split of lo .. hi has a smaller difference between the occurrences of its two sides |
| `ShannonFano.SeparationBalances` | sf.c:66-78 | the separation minimises the absolute difference between the occurrences of the two halves |
| `ShannonFano.SeparationExamples` | sf.c:105-113 | ties move the lower bound: counts 1 1 1 split after the second event, counts 2 1 1 after the first |
| `ShannonFano.EncodePositionLoop` | sf.c:125-143 | the loop of encode_position emits the split code of p, shorter than the table |
| `ShannonFano.DecodePositionLoop` | sf.c:203-223 | the loop of decode_position returns a position of the table, the same as the split decoding, and fails with a read error when the bits run out first |
| `ShannonFano.DecodeEncodePosition` | sf.c:125-143 | decode_position over what encode_position emitted for position p, on the same table, returns p and consumes exactly those bits |
| `ShannonFano.DecodeEncodeRange` | sf.c:132-142 | within any range lo .. hi, the split bits of a position decode back to it |
| `ShannonFano.SingleEntryCode` | sf.c:132 | a table with one entry codes its position with no bits and decodes it without reading |
| `ShannonFano.IncrementMoves` | sf.c:154-170 | incremente_et_ordonne puts the raised event at the first earlier position with a strictly smaller count, or leaves it at p; the displaced event goes to p; nothing else changes |
| `ShannonFano.IncrementValid` | sf.c:145-170 | incremente_et_ordonne keeps the counts sorted and ESCAPE present |
| `ShannonFano.IncrementPermutes` | sf.c:145-170 | incremente_et_ordonne only exchanges the values at two positions, the raised one and the one it displaces |
| `ShannonFano.IncrementDistinct` | sf.c:145-170 | incremente_et_ordonne keeps the same set of values, and its result holds no value twice exactly when its input held none twice |
| `ShannonFano.AppendDistinct` | sf.c:189-192 | appending an entry leaves no value twice exactly when none was there twice and the appended value is new |
| `ShannonFano.IncrementAppend` | sf.c:189-195 | incrementing before or after appending an entry at the end gives the same table, which is why encoder and decoder agree |
| `ShannonFano.RawRoundTrip` | sf.c:187 | the 32 bits put_bits emits for an int read back with get_bits as that int |
| `ShannonFano.PutSymbol` | sf.c:178-197 | the table keeps its size when the value is present and not ESCAPE; otherwise it grows by one, with (value, 1) at the end |
| `ShannonFano.GetSymbol` | sf.c:231-248 | decoding an event grows the table by at most one entry; it fails only with a read error |
| `ShannonFano.PutSymbolValid` | sf.c:178-197 | put_entier_shannon_fano keeps the coder's invariant |
| `ShannonFano.GetSymbolValid` | sf.c:231-248 | get_entier_shannon_fano keeps the coder's invariant |
| `ShannonFano.PutSymbolDistinct` | sf.c:178-197 | put_entier_shannon_fano leaves no value twice exactly when none was there twice and the event is not ESCAPE's own value, which adds a second ESCAPE entry |
| `ShannonFano.GetSymbolDistinct` | sf.c:231-248 | get_entier_shannon_fano leaves no value twice exactly when none was there twice and it did not read, after ESCAPE, a value already in the table |
| `ShannonFano.GetSymbolOfPutSymbol` | sf.c:178-248 | from the same table, get_entier_shannon_fano over what put_entier_shannon_fano emitted returns the value, consumes exactly its bits and ends with the encoder's table |
| `ShannonFano.PutAll` | sf.c:178-197 | after any number of events, the table still holds ESCAPE and has grown by at most one entry per event |
| `ShannonFano.GetAll` | sf.c:231-248 | reading n events returns n values and grows the table by at most n entries |
| `ShannonFano.GetAllOfPutAll` | sf.c:178-248 | a decoder starting from the encoder's table reads back every event of a sequence and ends with the encoder's final table |
| `ShannonFano.EncodeDecodeAll` | sf.c:178-248 | from the same starting table, decoding the bits of any sequence of events gives back that sequence, consumes exactly those bits, and leaves decoder and encoder with the same table |
| `ShannonFano.PutAllValid` | sf.c:178-197 | any number of put_entier_shannon_fano calls keep the counts sorted, ESCAPE present and every count at least 1 |
| `ShannonFano.PutAllDistinct` | sf.c:178-197 | after any number of put_entier_shannon_fano calls no value is held twice exactly when none was at the start and no event was ESCAPE's own value |
| `Rle.Compresse` | rle.c:44-66 | compresse stores at least as many counts as values |
| `Rle.CompresseShape` | rle.c:44-66 | the values stored are the non-zero coefficients, all non-zero; the counts plus the number of values add up to the number of coefficients; a last count follows the last value exactly when the coefficients end in zeros |
| `Rle.CompresseExample` | rle.c:29-36 | 5 8 0 0 4 0 0 0 0 2 1 0 0 0 is stored as counts 0 0 2 4 0 3 and values 5 8 4 2 1 |
| `Rle.CountZeros` | rle.c:60-61 | a run of zeros is counted and nothing is stored for it |
| `Rle.Decompresse` | rle.c:72-94 | decompresse fills exactly nbe coefficients and leaves suffixes of both streams unread; it fails only when a stream runs out or a count overruns the array |
| `Rle.DecompresseRound` | rle.c:78-91 | a round of decompresse whose zeros leave room writes the zeros counted, then reads one value and goes on |
| `Rle.DecompresseFull` | rle.c:78-88 | a round whose zeros fill the array writes them and ends decompresse without reading a value |
| `Rle.DecompresseOfCompresse` | rle.c:44-94 | decompresse over what compresse stored gives back the coefficients exactly, and leaves whatever follows on either stream unread |

## Left out

- Files and errors in bitstream.c: opening, `fputc`, `fgetc`, `fclose` and the
  `"-"` routing to standard input and output are not modelled. The file is a
  byte sequence: the bytes written so far, or the bytes still unread. A write or
  close failure of the operating system has no counterpart, and the exceptions
  are `Result` errors.
- Memory management: `ALLOUER`, `free` and `close_shannon_fano` only release
  memory.
- Test accessors: `sf_get_nb_evenements`, `sf_get_evenement` and the
  `bitstream_*` getters exist only for tests.
- `pow2(70)`: a shift beyond the word width is undefined in C. `Pow2` requires
  a position below 64.
- The random loops of bit_tst.c are stated instead as properties over every
  word.
- image.c and dct.c, the PGM file handling and the floating-point transform, are
  not part of this model.
- `rint` rounding in `compresse` is not modelled: the model works on the
  integers it produces.
- The intstream layer is not part of this model. The two RLE streams are two
  sequences, counts and signed values. The order in which the C code
  interleaves them within one file is not modelled.
- C `int` overflow of occurrence counts and separation sums is not modelled.
  Counts are unbounded naturals, which matches the C code as long as the sum
  of all counts stays below 2^31: the sums `sum_min` and `sum_max` of
  `trouve_separation` (sf.c:103-112) overflow before any single count does.
- The escape value's conversions are modelled as two's complement:
  - the int is sign-extended to the unsigned long handed to `put_bits`;
  - the unsigned int from `get_bits` is read back as an int.

  - `get_entier_signe` returns `-get_entier(b)-1`, computed on the unsigned int
    of `get_entier` and converted to int (entier.c:125-131);
    `Entier.GetEntierSigne` models it as `-m - 1` on the integer `m` read.

  These are the conversions of every usual C target; the standard leaves the
  unsigned-to-int ones to the implementation.
- ShannonFano.PutSymbol: requires fewer than 200000 entries. The C array
  holds 200000 and nothing checks it (sf.c:24, 191, 244); `GetSymbol`,
  `PutAll` and `GetAll` carry the same bound.
- EntierProofs.GetEntierOfPutEntier: stated for values up to 32767. Above
  that `put_entier` exits, modelled as `Err(ValueTooLarge)`.
- Rle.Decompresse: takes `nbe` and the counts as naturals. A negative count
  or a negative `nbe` cannot be given. A count running past `nbe` is
  `Err(RunOverflow)`, where the C code writes past the end of the array.
