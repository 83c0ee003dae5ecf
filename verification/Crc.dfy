/**
 The PNG checksum: the table-driven CRC against the bit-by-bit one of section 3.4 of RFC 2083, and which
 corruptions it detects. A 32-bit word is the sequence of its bits, lowest first.
 */
module Crc {
  import opened Bytes
  import opened Folds

  type Word = w: seq<bool> | |w| == 32 witness seq(32, _ => false)

  /** The exponents of x^32+x^26+x^23+x^22+x^16+x^12+x^11+x^10+x^8+x^7+x^5+x^4+x^2+x+1 below the leading one. */
  const EXPONENTS: set<nat> := {26, 23, 22, 16, 12, 11, 10, 8, 7, 5, 4, 2, 1, 0}

  function Polynomial(): (p: Word)
    ensures forall i :: 0 <= i < 32 ==> p[i] == (i in EXPONENTS)
  {
    seq(32, i => i in EXPONENTS)
  }

  /** The constant of the source's table, 0xedb88320, lowest bit first. */
  function Reflected(): Word {
    [false, false, false, false, false, true, false, false,
     true, true, false, false, false, false, false, true,
     false, false, false, true, true, true, false, true,
     true, false, true, true, false, true, true, true]
  }

  function Ones(): (ones: Word)
    ensures forall i :: 0 <= i < 32 ==> ones[i]
  {
    seq(32, _ => true)
  }

  function Zeros(n: nat): (zeros: seq<bool>)
    ensures |zeros| == n && forall i :: 0 <= i < n ==> !zeros[i]
  {
    if n == 0 then [] else [false] + Zeros(n - 1)
  }

  function Xor(a: Word, b: Word): (r: Word)
    ensures forall i :: 0 <= i < 32 ==> r[i] == (a[i] != b[i])
  {
    seq(32, i requires 0 <= i < 32 => a[i] != b[i])
  }

  function ShiftRight(a: Word, n: nat): (r: Word)
    requires n <= 32
    ensures forall i :: 0 <= i < 32 ==> r[i] == (i + n < 32 && a[i + n])
  {
    a[n..] + Zeros(n)
  }

  function Reverse(a: Word): (r: Word)
    ensures forall i :: 0 <= i < 32 ==> r[i] == a[31 - i]
  {
    seq(32, i requires 0 <= i < 32 => a[31 - i])
  }

  /** The number a sequence of bits stands for. */
  function Value(bits: seq<bool>): nat {
    if bits == [] then 0 else (if bits[0] then 1 else 0) + 2 * Value(bits[1..])
  }

  function Bits(n: nat, count: nat): (bits: seq<bool>)
    ensures |bits| == count
  {
    if count == 0 then [] else [n % 2 == 1] + Bits(n / 2, count - 1)
  }

  /** The bits of a byte, least significant first, the order in which the standard feeds them. */
  function BitsOf(b: Byte): (bits: seq<bool>)
    ensures |bits| == 8
  {
    Bits(b, 8)
  }

  function WordOf(b: Byte): Word {
    BitsOf(b) + Zeros(24)
  }

  /** The source's constant is the standard's polynomial with x^31 in the lowest bit. */
  lemma ReflectedIsPolynomial()
    ensures Reflected() == Reverse(Polynomial())
  {
  }

  // ---- The definition: division by the polynomial, one message bit at a time -------------------------

  function TimesX(a: Word): Word {
    [false] + a[..31]
  }

  /** One step of the division: the register is multiplied by x, and reduced when with the message bit a term of degree 32 appears. */
  function Divide(register: Word, bit: bool): Word {
    if register[31] != bit then Xor(Polynomial(), TimesX(register)) else TimesX(register)
  }

  /**
   The checksum the standard defines: the register starts as all ones and ends complemented, and the
   coefficient of x^31 is the lowest bit of the result.
   */
  function Checksum(bytes: seq<Byte>): Word {
    Reverse(Xor(Fold(Divide, Ones(), FlatMap(BitsOf, bytes)), Ones()))
  }

  // ---- The source's arithmetic -----------------------------------------------------------------------

  function Step(c: Word): Word {
    if c[0] then Xor(Reflected(), ShiftRight(c, 1)) else ShiftRight(c, 1)
  }

  /** What one byte makes of the register: it is xored in and shifted through. */
  function FeedByte(c: Word, b: Byte): Word {
    Iterate(Step, Xor(c, WordOf(b)), 8)
  }

  function LowByte(c: Word): Word {
    c[..8] + Zeros(24)
  }

  function HighBytes(c: Word): Word {
    Zeros(8) + c[8..]
  }

  // ---- The shift step is linear over xor -------------------------------------------------------------

  lemma StepIsLinear(a: Word, b: Word)
    ensures Step(Xor(a, b)) == Xor(Step(a), Step(b))
  {
  }

  lemma StepsAreLinear(a: Word, b: Word, n: nat)
    ensures Iterate(Step, Xor(a, b), n) == Xor(Iterate(Step, a, n), Iterate(Step, b, n))
  {
    forall x: Word, y: Word ensures Step(Xor(x, y)) == Xor(Step(x), Step(y)) {
      StepIsLinear(x, y);
    }
    IterateIsLinear(Step, Xor, a, b, n);
  }

  /** Steps of a word whose lowest bits are zero only shift it. */
  lemma {:induction false} LowZerosShift(c: Word, n: nat)
    requires n <= 32 && forall i :: 0 <= i < n ==> !c[i]
    ensures Iterate(Step, c, n) == ShiftRight(c, n)
    decreases n
  {
    if n > 0 {
      LowZerosShift(ShiftRight(c, 1), n - 1);
    }
  }

  /** Why one table look-up replaces eight steps. */
  lemma TableLookup(c: Word, b: Byte)
    ensures FeedByte(c, b) == Xor(Iterate(Step, LowByte(Xor(c, WordOf(b))), 8), ShiftRight(c, 8))
  {
    var x := Xor(c, WordOf(b));
    assert x == Xor(LowByte(x), HighBytes(x));
    StepsAreLinear(LowByte(x), HighBytes(x), 8);
    LowZerosShift(HighBytes(x), 8);
    assert ShiftRight(HighBytes(x), 8) == ShiftRight(c, 8);
  }

  // ---- The table and the loop ------------------------------------------------------------------------

  function Power2(n: nat): nat {
    if n == 0 then 1 else 2 * Power2(n - 1)
  }

  lemma ValueBound(bits: seq<bool>)
    ensures Value(bits) < Power2(|bits|)
  {
  }

  lemma Halve(b: bool, v: nat)
    ensures ((if b then 1 else 0) + 2 * v) % 2 == 1 <==> b
    ensures ((if b then 1 else 0) + 2 * v) / 2 == v
  {
  }

  lemma {:induction false} BitsOfValue(bits: seq<bool>)
    ensures Bits(Value(bits), |bits|) == bits
  {
    if bits != [] {
      BitsOfValue(bits[1..]);
      Halve(bits[0], Value(bits[1..]));
      assert bits == [bits[0]] + bits[1..];
    }
  }

  /** The low byte as a table index. */
  function Index(c: Word): (n: nat)
    ensures n < 256
  {
    ValueBound(c[..8]);
    assert Power2(8) == 256;
    Value(c[..8])
  }

  lemma IndexIsLowByte(c: Word)
    ensures WordOf(Index(c)) == LowByte(c)
  {
    BitsOfValue(c[..8]);
  }

  predicate IsTable(table: seq<Word>) {
    |table| == 256 && forall n :: 0 <= n < 256 ==> table[n] == Iterate(Step, WordOf(n), 8)
  }

  /** Eight turns of the table's inner loop. */
  method ShiftEight(word: Word) returns (c: Word)
    ensures c == Iterate(Step, word, 8)
  {
    c := word;
    for k := 0 to 8
      invariant Iterate(Step, c, 8 - k) == Iterate(Step, word, 8)
    {
      c := if c[0] then Xor(Reflected(), ShiftRight(c, 1)) else ShiftRight(c, 1);
    }
  }

  /** `CRC_TABLE`: entry `n` is eight steps of `n`. */
  method BuildTable() returns (table: array<Word>)
    ensures fresh(table) && IsTable(table[..])
  {
    table := new Word[256](_ => Ones());
    for n := 0 to 256
      invariant forall m :: 0 <= m < n ==> table[m] == Iterate(Step, WordOf(m), 8)
    {
      table[n] := ShiftEight(WordOf(n));
    }
  }

  /** The source's `crc32`: the standard's checksum of every message. */
  method Crc32(table: array<Word>, bytes: seq<Byte>) returns (crc: Word)
    requires IsTable(table[..])
    ensures crc == Checksum(bytes)
  {
    var c := Ones();
    for i := 0 to |bytes|
      invariant Fold(FeedByte, c, bytes[i..]) == Fold(FeedByte, Ones(), bytes)
    {
      TableLookup(c, bytes[i]);
      IndexIsLowByte(Xor(c, WordOf(bytes[i])));
      assert bytes[i..][0] == bytes[i] && bytes[i..][1..] == bytes[i + 1..];
      c := Xor(table[..][Index(Xor(c, WordOf(bytes[i])))], ShiftRight(c, 8));
    }
    FeedIsChecksum(bytes);
    return Xor(c, Ones());
  }

  // ---- Equivalence with the definition ---------------------------------------------------------------

  lemma ReverseStep(c: Word)
    ensures Reverse(ShiftRight(c, 1)) == TimesX(Reverse(c))
    ensures Reverse(Xor(Reflected(), c)) == Xor(Polynomial(), Reverse(c))
  {
    ReflectedIsPolynomial();
    assert forall i :: 0 <= i < 32 ==> Reverse(ShiftRight(c, 1))[i] == TimesX(Reverse(c))[i];
    assert forall i :: 0 <= i < 32 ==> Reverse(Xor(Reflected(), c))[i] == Xor(Polynomial(), Reverse(c))[i];
  }

  /** Taking a bit into the reflected register is a division step on the reversed one. */
  lemma StepDivides(c: Word, bit: bool)
    ensures Reverse(Step(Xor(c, [bit] + Zeros(31)))) == Divide(Reverse(c), bit)
  {
    var x := Xor(c, [bit] + Zeros(31));
    assert ShiftRight(x, 1) == ShiftRight(c, 1);
    ReverseStep(c);
    ReverseStep(ShiftRight(c, 1));
  }

  function Pad(bits: seq<bool>): Word
    requires |bits| <= 32
  {
    bits + Zeros(32 - |bits|)
  }

  lemma FirstBit(c: Word, bits: seq<bool>)
    requires 1 <= |bits| <= 32
    ensures Step(Xor(c, Pad(bits))) == Xor(Step(Xor(c, [bits[0]] + Zeros(31))), Pad(bits[1..]))
  {
    var first, others := [bits[0]] + Zeros(31), Pad([false] + bits[1..]);
    assert Xor(c, Pad(bits)) == Xor(Xor(c, first), others);
    StepIsLinear(Xor(c, first), others);
    assert Step(others) == Pad(bits[1..]);
  }

  /** Xoring several bits in at once and stepping past them divides by each in turn. */
  lemma {:induction false} StepsDivide(c: Word, bits: seq<bool>)
    requires |bits| <= 32
    ensures Reverse(Iterate(Step, Xor(c, Pad(bits)), |bits|)) == Fold(Divide, Reverse(c), bits)
    decreases |bits|
  {
    if bits == [] {
      assert Xor(c, Pad(bits)) == c;
    } else {
      FirstBit(c, bits);
      StepDivides(c, bits[0]);
      StepsDivide(Step(Xor(c, [bits[0]] + Zeros(31))), bits[1..]);
    }
  }

  lemma FeedIsChecksum(bytes: seq<Byte>)
    ensures Xor(Fold(FeedByte, Ones(), bytes), Ones()) == Checksum(bytes)
  {
    forall c: Word, b: Byte ensures Reverse(FeedByte(c, b)) == Fold(Divide, Reverse(c), BitsOf(b)) {
      StepsDivide(c, BitsOf(b));
      assert WordOf(b) == Pad(BitsOf(b));
    }
    FoldSimulates(FeedByte, Divide, Reverse, BitsOf, Ones(), bytes);
    assert Reverse(Ones()) == Ones();
    var register := Fold(FeedByte, Ones(), bytes);
    assert Reverse(Xor(Reverse(register), Ones())) == Xor(register, Ones());
  }

  // ---- What the checksum detects ---------------------------------------------------------------------

  /** No two registers step to the same one: the polynomial's constant term tells which branch was taken. */
  lemma StepIsInjective(a: Word, b: Word)
    ensures Step(a) == Step(b) ==> a == b
  {
    if Step(a) == Step(b) {
      assert Step(a)[31] == a[0] && Step(b)[31] == b[0];
      forall i | 0 < i < 32 ensures a[i] == b[i] {
        assert Step(a)[i - 1] == (a[i] != (a[0] && Reflected()[i - 1]));
        assert Step(b)[i - 1] == (b[i] != (b[0] && Reflected()[i - 1]));
      }
    }
  }

  lemma StepsAreInjective(a: Word, b: Word, n: nat)
    requires Iterate(Step, a, n) == Iterate(Step, b, n)
    ensures a == b
  {
    forall x: Word, y: Word ensures Step(x) == Step(y) ==> x == y {
      StepIsInjective(x, y);
    }
    IterateIsInjective(Step, a, b, n);
  }

  lemma FeedIsInjective(a: Word, b: Word, bytes: seq<Byte>)
    requires Fold(FeedByte, a, bytes) == Fold(FeedByte, b, bytes)
    ensures a == b
  {
    forall x: Word, y: Word, e: Byte ensures FeedByte(x, e) == FeedByte(y, e) ==> x == y {
      if FeedByte(x, e) == FeedByte(y, e) {
        StepsAreInjective(Xor(x, WordOf(e)), Xor(y, WordOf(e)), 8);
        assert x == Xor(Xor(x, WordOf(e)), WordOf(e)) && y == Xor(Xor(y, WordOf(e)), WordOf(e));
      }
    }
    FoldIsInjective(FeedByte, a, b, bytes);
  }

  /** Up to four bytes as one word, the first lowest. */
  function Packed(bytes: seq<Byte>): (bits: seq<bool>)
    requires |bytes| <= 4
    ensures |bits| == 8 * |bytes|
  {
    if bytes == [] then [] else BitsOf(bytes[0]) + Packed(bytes[1..])
  }

  /** Bits above a byte can be xored in before it is shifted through. */
  lemma XorAbove(c: Word, b: Byte, rest: seq<bool>)
    requires |rest| <= 24
    ensures Xor(FeedByte(c, b), Pad(rest)) == Iterate(Step, Xor(c, Pad(BitsOf(b) + rest)), 8)
  {
    var high := Pad(Zeros(8) + rest);
    assert Xor(c, Pad(BitsOf(b) + rest)) == Xor(Xor(c, WordOf(b)), high);
    StepsAreLinear(Xor(c, WordOf(b)), high, 8);
    LowZerosShift(high, 8);
    assert ShiftRight(high, 8) == Pad(rest);
  }

  /** Feeding up to four bytes is xoring them in at once and shifting through them all. */
  lemma {:induction false} FeedPacked(c: Word, bytes: seq<Byte>)
    requires |bytes| <= 4
    ensures Fold(FeedByte, c, bytes) == Iterate(Step, Xor(c, Pad(Packed(bytes))), 8 * |bytes|)
    decreases |bytes|
  {
    if bytes == [] {
      assert Xor(c, Pad([])) == c;
    } else {
      FeedPacked(FeedByte(c, bytes[0]), bytes[1..]);
      XorAbove(c, bytes[0], Packed(bytes[1..]));
      IterateAdd(Step, Xor(c, Pad(Packed(bytes))), 8, 8 * |bytes[1..]|);
    }
  }

  lemma PackedIsInjective(a: seq<Byte>, b: seq<Byte>)
    requires |a| == |b| <= 4 && Packed(a) == Packed(b)
    ensures a == b
  {
    if a != [] {
      assert Packed(a)[..8] == BitsOf(a[0]) && Packed(b)[..8] == BitsOf(b[0]);
      assert Packed(a)[8..] == Packed(a[1..]) && Packed(b)[8..] == Packed(b[1..]);
      BitsAreInjective(a[0], b[0], 8);
      PackedIsInjective(a[1..], b[1..]);
      assert a == [a[0]] + a[1..] && b == [b[0]] + b[1..];
    }
  }

  lemma {:induction false} BitsAreInjective(a: nat, b: nat, n: nat)
    requires a < Power2(n) && b < Power2(n) && Bits(a, n) == Bits(b, n)
    ensures a == b
    decreases n
  {
    if n > 0 {
      assert Bits(a, n)[0] == Bits(b, n)[0] && Bits(a, n)[1..] == Bits(b, n)[1..];
      BitsAreInjective(a / 2, b / 2, n - 1);
    }
  }

  lemma ChecksumIsFeed(bytes: seq<Byte>)
    ensures Fold(FeedByte, Ones(), bytes) == Xor(Checksum(bytes), Ones())
  {
    FeedIsChecksum(bytes);
    var register := Fold(FeedByte, Ones(), bytes);
    assert Xor(Xor(register, Ones()), Ones()) == register;
  }

  /** Any corruption confined to four consecutive bytes of a chunk changes its checksum. */
  lemma BurstIsDetected(before: seq<Byte>, a: seq<Byte>, b: seq<Byte>, after: seq<Byte>)
    requires |a| == |b| <= 4 && a != b
    ensures Checksum(before + a + after) != Checksum(before + b + after)
  {
    if Checksum(before + a + after) == Checksum(before + b + after) {
      ChecksumIsFeed(before + a + after);
      ChecksumIsFeed(before + b + after);
      var c := Fold(FeedByte, Ones(), before);
      FoldAppend(FeedByte, Ones(), before + a, after);
      FoldAppend(FeedByte, Ones(), before + b, after);
      FoldAppend(FeedByte, Ones(), before, a);
      FoldAppend(FeedByte, Ones(), before, b);
      FeedIsInjective(Fold(FeedByte, c, a), Fold(FeedByte, c, b), after);
      SameFeedSameBytes(c, a, b);
    }
  }

  lemma SameFeedSameBytes(c: Word, a: seq<Byte>, b: seq<Byte>)
    requires |a| == |b| <= 4 && Fold(FeedByte, c, a) == Fold(FeedByte, c, b)
    ensures a == b
  {
    FeedPacked(c, a);
    FeedPacked(c, b);
    var x, y := Pad(Packed(a)), Pad(Packed(b));
    StepsAreInjective(Xor(c, x), Xor(c, y), 8 * |a|);
    assert x == Xor(c, Xor(c, x)) && y == Xor(c, Xor(c, y));
    assert Packed(a) == x[..8 * |a|] && Packed(b) == y[..8 * |b|];
    PackedIsInjective(a, b);
  }

  // ---- The initial ones ------------------------------------------------------------------------------

  function Flip(bytes: seq<Byte>): (flipped: seq<Byte>)
    ensures |flipped| == |bytes| && forall i :: 0 <= i < |bytes| ==> flipped[i] == 255 - bytes[i]
  {
    if bytes == [] then [] else [255 - bytes[0]] + Flip(bytes[1..])
  }

  lemma {:induction false} FlippedBits(n: nat, count: nat)
    requires n < Power2(count)
    ensures forall i :: 0 <= i < count ==> Bits(Power2(count) - 1 - n, count)[i] == !Bits(n, count)[i]
    decreases count
  {
    if count > 0 {
      var m := Power2(count) - 1 - n;
      assert m % 2 == 1 - n % 2 && m / 2 == Power2(count - 1) - 1 - n / 2;
      FlippedBits(n / 2, count - 1);
    }
  }

  lemma {:induction false} FlippedPacked(bytes: seq<Byte>)
    requires |bytes| <= 4
    ensures forall i :: 0 <= i < 8 * |bytes| ==> Packed(Flip(bytes))[i] == !Packed(bytes)[i]
    decreases |bytes|
  {
    if bytes != [] {
      FlippedPacked(bytes[1..]);
      assert Power2(8) == 256;
      FlippedBits(bytes[0], 8);
      assert Flip(bytes)[0] == 255 - bytes[0] && Flip(bytes)[1..] == Flip(bytes[1..]);
    }
  }

  /** The remainder of a message, most significant coefficient first, with nothing before it and no complement. */
  function Remainder(bytes: seq<Byte>): Word {
    Fold(Divide, Pad([]), FlatMap(BitsOf, bytes))
  }

  lemma FeedIsRemainder(bytes: seq<Byte>)
    ensures Reverse(Fold(FeedByte, Pad([]), bytes)) == Remainder(bytes)
  {
    forall c: Word, b: Byte ensures Reverse(FeedByte(c, b)) == Fold(Divide, Reverse(c), BitsOf(b)) {
      StepsDivide(c, BitsOf(b));
      assert WordOf(b) == Pad(BitsOf(b));
    }
    FoldSimulates(FeedByte, Divide, Reverse, BitsOf, Pad([]), bytes);
    assert Reverse(Pad([])) == Pad([]);
  }

  lemma FlippedWord(p: seq<bool>, q: seq<bool>, zero: Word)
    requires |p| == |q| == 32 && (forall i :: 0 <= i < 32 ==> q[i] == !p[i] && !zero[i])
    ensures Xor(Ones(), Pad(p)) == Xor(zero, Pad(q))
  {
  }

  lemma FlippedStart(start: seq<Byte>, flipped: seq<Byte>, zero: Word)
    requires |start| == 4 && flipped == Flip(start) && forall i :: 0 <= i < 32 ==> !zero[i]
    ensures Fold(FeedByte, Ones(), start) == Fold(FeedByte, zero, flipped)
  {
    FeedPacked(Ones(), start);
    FeedPacked(zero, flipped);
    FlippedPacked(start);
    FlippedWord(Packed(start), Packed(flipped), zero);
  }

  lemma SameRegister(start: seq<Byte>, flipped: seq<Byte>, rest: seq<Byte>, zero: Word)
    requires |start| == 4 && flipped == Flip(start) && forall i :: 0 <= i < 32 ==> !zero[i]
    ensures Fold(FeedByte, Ones(), start + rest) == Fold(FeedByte, zero, flipped + rest)
  {
    FlippedStart(start, flipped, zero);
    FoldAppend(FeedByte, Ones(), start, rest);
    FoldAppend(FeedByte, zero, flipped, rest);
  }

  lemma Complemented(checksum: Word, register: Word)
    requires checksum == Xor(register, Ones())
    ensures forall i :: 0 <= i < 32 ==> checksum[i] == !Reverse(register)[31 - i]
  {
  }

  /** The checksum is the complement of the remainder of the message with its first four bytes complemented. */
  lemma OnesFlipTheStart(message: seq<Byte>, flipped: seq<Byte>)
    requires |message| >= 4 && flipped == Flip(message[..4]) + message[4..]
    ensures forall i :: 0 <= i < 32 ==> Checksum(message)[i] == !Remainder(flipped)[31 - i]
  {
    var start, rest := message[..4], message[4..];
    assert message == start + rest;
    FeedIsChecksum(message);
    FeedIsRemainder(flipped);
    SameRegister(start, Flip(start), rest, Pad([]));
    Complemented(Checksum(message), Fold(FeedByte, Pad([]), flipped));
  }
}
