/**
  How the swizzle engine sizes its buffers before transforming: a file whose
  address bits are reordered is rounded up to a power of two, every size is
  rounded up to a whole number of words, and the number of address bits is
  the floor of log2 of the word count, which must lie between 1 and 32.
*/
module Sizing {
  import opened Bits
  import opened Wrappers
  import opened Diagnostics

  // ---------------------------------------------------------------------------
  // Power-of-two rounding

  /** The test `size & (size - 1)`: nonzero exactly when size has two or more set bits. */
  predicate SeveralBits(size: nat)
  {
    size > 0 && And(size, size - 1) != 0
  }

  /** The test passes (a warning is due) exactly for sizes that are neither 0 nor a power of two. */
  lemma SeveralBitsIffNotPow2(size: nat)
    ensures SeveralBits(size) <==> size > 0 && size != Pow2(FloorLog2(size))
  {
    if size > 0 {
      var l := FloorLog2(size);
      var below := size - 1;
      if size == Pow2(l) {
        forall k: nat
          ensures !Bit(And(size, below), k)
        {
          BitAnd(size, below, k);
          BitPow2(l, k);
          BitLowOnes(l, k);
        }
        NoBitsZero(And(size, below));
      } else {
        TopBit(size, l);
        TopBit(size - 1, l);
        BitAnd(size, size - 1, l);
        BitOfZero(l);
      }
    }
  }

  /** Every power of two is recognised as one. */
  lemma Pow2NotFlagged(m: nat)
    ensures !SeveralBits(Pow2(m))
  {
    FloorLog2Unique(Pow2(m), m);
    SeveralBitsIffNotPow2(Pow2(m));
  }

  /**
    The five shift-and-OR steps that copy the top set bit into every bit
    below it. They never lower the size: every bit of it survives the ORs.
  */
  function Smear(size: nat): (r: nat)
    ensures size <= r
  {
    var a := Or(size, Shr(size, 1));
    OrAtLeast(size, Shr(size, 1));
    var b := Or(a, Shr(a, 2));
    OrAtLeast(a, Shr(a, 2));
    var c := Or(b, Shr(b, 4));
    OrAtLeast(b, Shr(b, 4));
    var d := Or(c, Shr(c, 8));
    OrAtLeast(c, Shr(c, 8));
    OrAtLeast(d, Shr(d, 16));
    Or(d, Shr(d, 16))
  }

  /** Bit top is the highest set bit of v, and the w bits from top downwards (as far as bit 0) are all set. */
  ghost predicate Filled(v: nat, top: nat, w: nat)
  {
    (forall k: nat :: top < k ==> !Bit(v, k)) &&
    (forall k: nat :: k <= top < k + w ==> Bit(v, k))
  }

  lemma SmearStep(v: nat, top: nat, w: nat)
    requires Filled(v, top, w)
    ensures Filled(Or(v, Shr(v, w)), top, 2 * w)
  {
    var u := Or(v, Shr(v, w));
    forall k: nat
      ensures Bit(u, k) == (Bit(v, k) || Bit(v, w + k))
    {
      BitOr(v, Shr(v, w), k);
      BitShr(v, w, k);
    }
    forall k: nat | top < k
      ensures !Bit(u, k)
    {
      assert !Bit(v, k) && !Bit(v, w + k);
    }
    forall k: nat | k <= top < k + 2 * w
      ensures Bit(u, k)
    {
      if top >= k + w {
        assert Bit(v, w + k);
      } else {
        assert Bit(v, k);
      }
    }
  }

  /** Below 2^32 the smear sets exactly the bits up to the top one. */
  lemma SmearFills(size: nat)
    requires 0 < size < Pow2(32)
    ensures Smear(size) == Pow2(FloorLog2(size) + 1) - 1
  {
    var top := FloorLog2(size);
    if top >= 32 {
      Pow2Monotone(32, top);
    }
    SmearFilled(size, top);
    FilledLowOnes(Smear(size), top);
  }

  /** The five steps double the run of set bits below the top one: 1, 2, 4, 8, 16, 32. */
  lemma SmearFilled(size: nat, top: nat)
    requires Pow2(top) <= size < Pow2(top + 1)
    ensures Filled(Smear(size), top, 32)
  {
    forall k: nat | top < k
      ensures !Bit(size, k)
    {
      HighBitsClear(size, top + 1, k);
    }
    TopBit(size, top);
    assert Filled(size, top, 1);
    var a := Or(size, Shr(size, 1));
    SmearStep(size, top, 1);
    var b := Or(a, Shr(a, 2));
    SmearStep(a, top, 2);
    var c := Or(b, Shr(b, 4));
    SmearStep(b, top, 4);
    var d := Or(c, Shr(c, 8));
    SmearStep(c, top, 8);
    SmearStep(d, top, 16);
  }

  /** A value whose bits from top down to bit 0 are set and whose higher bits are clear is 2^(top + 1) - 1. */
  lemma FilledLowOnes(e: nat, top: nat)
    requires top < 32 && Filled(e, top, 32)
    ensures e == Pow2(top + 1) - 1
  {
    forall k: nat
      ensures Bit(e, k) == Bit(Pow2(top + 1) - 1, k)
    {
      BitLowOnes(top + 1, k);
    }
    BitsEqual(e, Pow2(top + 1) - 1);
  }

  /** One shift-and-OR step: bit k of the result is bit k or bit k + w of the operand. */
  lemma StepBit(v: nat, w: nat, k: nat)
    ensures Bit(Or(v, Shr(v, w)), k) == (Bit(v, k) || Bit(v, w + k))
  {
    BitOr(v, Shr(v, w), k);
    BitShr(v, w, k);
  }

  /** A set bit j of the operand stays set at j, and is copied down to j - w, by one step. */
  lemma CarryDown(v: nat, w: nat, k: nat, j: nat)
    requires Bit(v, j) && (j == k || j == w + k)
    ensures Bit(Or(v, Shr(v, w)), k)
  {
    StepBit(v, w, k);
  }

  /** A set bit at position 31 or below reaches bit 0: the shifts 1, 2, 4, 8 and 16 add up to any distance below 32. */
  lemma SmearReachesBitZero(v: nat, j: nat)
    requires j < 32 && Bit(v, j)
    ensures Bit(Smear(v), 0)
  {
    var a := Or(v, Shr(v, 1));
    var b := Or(a, Shr(a, 2));
    var c := Or(b, Shr(b, 4));
    var d := Or(c, Shr(c, 8));
    assert Smear(v) == Or(d, Shr(d, 16));
    var h16 := if j >= 16 then 16 else 0;
    var h8 := if j - h16 >= 8 then 8 else 0;
    var h4 := if j - h16 - h8 >= 4 then 4 else 0;
    var h2 := if j - h16 - h8 - h4 >= 2 then 2 else 0;
    var h1 := j - h16 - h8 - h4 - h2;
    CarryDown(v, 1, j - h1, j);
    CarryDown(a, 2, j - h1 - h2, j - h1);
    CarryDown(b, 4, h16 + h8, h16 + h8 + h4);
    CarryDown(c, 8, h16, h16 + h8);
    CarryDown(d, 16, 0, h16);
  }

  /** When bits 0 to 31 are all clear, no step carries anything down to bit 0. */
  lemma SmearKeepsBitZeroClear(v: nat)
    requires forall k: nat :: k < 32 ==> !Bit(v, k)
    ensures !Bit(Smear(v), 0)
  {
    var a := Or(v, Shr(v, 1));
    var b := Or(a, Shr(a, 2));
    var c := Or(b, Shr(b, 4));
    var d := Or(c, Shr(c, 8));
    assert Smear(v) == Or(d, Shr(d, 16));
    forall k: nat | k < 31
      ensures !Bit(a, k)
    {
      StepBit(v, 1, k);
    }
    forall k: nat | k < 29
      ensures !Bit(b, k)
    {
      StepBit(a, 2, k);
    }
    forall k: nat | k < 25
      ensures !Bit(c, k)
    {
      StepBit(b, 4, k);
    }
    forall k: nat | k < 17
      ensures !Bit(d, k)
    {
      StepBit(c, 8, k);
    }
    StepBit(d, 16, 0);
  }

  /** Strictly between 2^32 and 2^33 the smear still sets every bit from 32 down to 0. */
  lemma SmearFillsAbove(size: nat)
    requires Pow2(32) < size < Pow2(33)
    ensures Smear(size) == Pow2(33) - 1
  {
    var j := LowSetBit(size, 32);
    SmearReachesBitZero(size, j);
    SmearFilled(size, 32);
    FilledDownToZero(Smear(size), 32);
  }

  /** A size strictly between 2^n and 2^(n+1) has a set bit below bit n. */
  lemma LowSetBit(size: nat, n: nat) returns (j: nat)
    requires Pow2(n) < size < Pow2(n + 1)
    ensures j < n && Bit(size, j)
  {
    var lo := size - Pow2(n);
    assert Pow2(n + 1) == 2 * Pow2(n);
    j := FloorLog2(lo);
    if j >= n {
      Pow2Monotone(n, j);
    }
    TopBit(lo, j);
    assert Shl(1, n) == Pow2(n);
    OrAbove(1, lo, n);
    BitOr(Shl(1, n), lo, j);
  }

  /** Bits top down to 1 set by the steps, bit 0 set as well and nothing above: the value is 2^(top + 1) - 1. */
  lemma FilledDownToZero(e: nat, top: nat)
    requires Filled(e, top, top) && Bit(e, 0)
    ensures e == Pow2(top + 1) - 1
  {
    forall k: nat
      ensures Bit(e, k) == Bit(Pow2(top + 1) - 1, k)
    {
      BitLowOnes(top + 1, k);
      if 0 < k <= top {
        assert Bit(e, k);
      }
    }
    BitsEqual(e, Pow2(top + 1) - 1);
  }

  /**
    From 2^33 up a size can have no set bit below bit 32, and then the five
    steps never reach bit 0. An odd multiple of 2^32 other than 2^32 itself
    (2^33 + 2^32 is the first) is rounded to an odd size above it, which is
    not a power of two.
  */
  lemma RoundSizeMissesAbove(q: nat)
    requires q >= 1
    ensures var s := Shl(2 * q + 1, 32);
            var r := RoundSize(s, true);
            r % 2 == 1 && s < r && forall m: nat :: r != Pow2(m)
  {
    var s := Shl(2 * q + 1, 32);
    forall k: nat | k < 32
      ensures !Bit(s, k)
    {
      BitShl(2 * q + 1, 32, k);
    }
    SmearKeepsBitZeroClear(s);
    OddMultipleSeveralBits(q, 32);
    SmearEvenRoundsOdd(s);
  }

  /** When the smear leaves bit 0 clear, the rounding adds 1 to an even value: an odd size, hence no power of two. */
  lemma SmearEvenRoundsOdd(s: nat)
    requires SeveralBits(s) && !Bit(Smear(s), 0)
    ensures var r := RoundSize(s, true);
            r % 2 == 1 && s < r && forall m: nat :: r != Pow2(m)
  {
    var e := Smear(s);
    assert Shr(e, 0) == e;
    var r := RoundSize(s, true);
    assert r == e + 1 && r % 2 == 1;
    forall m: nat
      ensures r != Pow2(m)
    {
      if m > 0 {
        assert Pow2(m) == 2 * Pow2(m - 1);
      }
    }
  }

  /** An odd multiple of 2^n other than 2^n itself is not a power of two. */
  lemma OddMultipleSeveralBits(q: nat, n: nat)
    requires q >= 1
    ensures SeveralBits(Shl(2 * q + 1, n))
  {
    var s := Shl(2 * q + 1, n);
    var t := FloorLog2(2 * q + 1);
    assert Pow2(1) == 2;
    assert t >= 1;
    TopBit(2 * q + 1, t);
    BitShl(2 * q + 1, n, n);
    BitShl(2 * q + 1, n, n + t);
    TwoBitsSeveral(s, n, n + t);
  }

  /** A value with two distinct set bits is not a power of two. */
  lemma TwoBitsSeveral(s: nat, a: nat, b: nat)
    requires a != b && Bit(s, a) && Bit(s, b)
    ensures SeveralBits(s)
  {
    BitOfZero(a);
    var l := FloorLog2(s);
    BitPow2(l, a);
    BitPow2(l, b);
    SeveralBitsIffNotPow2(s);
  }

  /** The size after the power-of-two rounding, which only a reordering of address bits asks for. */
  function RoundSize(fileSize: nat, addressed: bool): (r: nat)
    ensures fileSize <= r
    ensures r != fileSize <==> addressed && SeveralBits(fileSize)
  {
    if addressed && SeveralBits(fileSize) then Smear(fileSize) + 1 else fileSize
  }

  /**
    With address bits, a size from 1 up to (not including) 2^33 becomes the
    least power of two that holds it: a power of two at least the size and
    below twice the size.
  */
  lemma RoundSizeLeastPow2(fileSize: nat)
    requires 1 <= fileSize < Pow2(33)
    ensures var r := RoundSize(fileSize, true);
            r == Pow2(FloorLog2(r)) && fileSize <= r < 2 * fileSize
  {
    var top := FloorLog2(fileSize);
    SeveralBitsIffNotPow2(fileSize);
    if SeveralBits(fileSize) {
      RoundSizeNextPow2(fileSize);
      NextPow2Bounds(fileSize);
    } else {
      assert RoundSize(fileSize, true) == fileSize == Pow2(top);
    }
  }

  /** Below 2^33 the smear of a size that is not a power of two is one less than the next power of two. */
  lemma RoundSizeNextPow2(fileSize: nat)
    requires 1 <= fileSize < Pow2(33) && SeveralBits(fileSize)
    ensures RoundSize(fileSize, true) == Pow2(FloorLog2(fileSize) + 1)
  {
    SeveralBitsIffNotPow2(fileSize);
    if fileSize > Pow2(32) {
      FloorLog2Unique(fileSize, 32);
      SmearFillsAbove(fileSize);
    } else if fileSize == Pow2(32) {
      FloorLog2Unique(fileSize, 32);
      assert false;
    } else {
      SmearFills(fileSize);
    }
  }

  /** Above a size that is not a power of two, the next power of two is less than twice the size. */
  lemma NextPow2Bounds(fileSize: nat)
    requires 0 < fileSize && fileSize != Pow2(FloorLog2(fileSize))
    ensures var r := Pow2(FloorLog2(fileSize) + 1);
            FloorLog2(r) == FloorLog2(fileSize) + 1 && fileSize < r < 2 * fileSize
  {
    var top := FloorLog2(fileSize);
    FloorLog2Unique(Pow2(top + 1), top + 1);
  }

  // ---------------------------------------------------------------------------
  // Rounding to whole words

  /**
    The alignment as the source writes it: add `bytesPerWord - 1`, then clear
    the low bits with `& ~(bytesPerWord - 1)`. That mask clears the right bits
    only when bytesPerWord is a power of two.
  */
  function AlignAsWritten(size: nat, bytesPerWord: nat): (r: nat)
    requires 1 <= bytesPerWord <= 4
    ensures size <= r < size + bytesPerWord
  {
    if size % bytesPerWord != 0 then
      AndNotBounds(size + (bytesPerWord - 1), bytesPerWord - 1);
      AndNot(size + (bytesPerWord - 1), bytesPerWord - 1)
    else size
  }

  /** The intended alignment: round size up to the next multiple of bytesPerWord. */
  function AlignUp(size: nat, bytesPerWord: nat): (r: nat)
    requires 1 <= bytesPerWord <= 4
    ensures r % bytesPerWord == 0
    ensures size <= r < size + bytesPerWord
  {
    if size % bytesPerWord != 0 then
      var y := size + (bytesPerWord - 1);
      RoundDown(y, bytesPerWord);
      y - y % bytesPerWord
    else size
  }

  /** Dropping the remainder leaves a multiple at most bytesPerWord - 1 below. */
  lemma RoundDown(y: nat, w: nat)
    requires 1 <= w <= 4
    ensures (y - y % w) % w == 0 && y % w < w
  {
    if w == 1 {
      assert y % 1 == 0;
    } else if w == 2 {
      Multiple2(y / 2);
      assert y - y % 2 == 2 * (y / 2);
    } else if w == 3 {
      Multiple3(y / 3);
      assert y - y % 3 == 3 * (y / 3);
    } else {
      Multiple4(y / 4);
      assert y - y % 4 == 4 * (y / 4);
    }
  }

  lemma Multiple2(q: nat)
    ensures (2 * q) % 2 == 0
  {
  }

  lemma Multiple3(q: nat)
    ensures (3 * q) % 3 == 0
  {
  }

  lemma Multiple4(q: nat)
    ensures (4 * q) % 4 == 0
  {
  }

  /** No smaller multiple of bytesPerWord holds size: AlignUp is the least one. */
  lemma AlignUpLeast(size: nat, bytesPerWord: nat, m: nat)
    requires 1 <= bytesPerWord <= 4
    requires m % bytesPerWord == 0 && size <= m
    ensures AlignUp(size, bytesPerWord) <= m
  {
    var r := AlignUp(size, bytesPerWord);
    if m < r {
      MultiplesApart(r, m, bytesPerWord);
    }
  }

  /** Two different multiples of w (from 1 to 4) are at least w apart. */
  lemma MultiplesApart(r: nat, m: nat, w: nat)
    requires 1 <= w <= 4 && m < r
    requires r % w == 0 && m % w == 0
    ensures m + w <= r
  {
    if w == 2 {
      assert r % 2 == 0 && m % 2 == 0;
    } else if w == 3 {
      assert r % 3 == 0 && m % 3 == 0;
    } else if w == 4 {
      assert r % 4 == 0 && m % 4 == 0;
    }
  }

  lemma AndNotOne(y: nat)
    ensures AndNot(y, 1) == y - y % 2
  {
  }

  lemma AndNotThree(y: nat)
    ensures AndNot(y, 3) == y - y % 4
  {
    if y > 0 {
      AndNotOne(y / 2);
    }
  }

  /** For one-, two- and four-byte words the source's mask does align up. */
  lemma AlignAsWrittenAgrees(size: nat, bytesPerWord: nat)
    requires bytesPerWord == 1 || bytesPerWord == 2 || bytesPerWord == 4
    ensures AlignAsWritten(size, bytesPerWord) == AlignUp(size, bytesPerWord)
  {
    if bytesPerWord == 2 {
      AndNotOne(size + 1);
    } else if bytesPerWord == 4 {
      AndNotThree(size + 3);
    }
  }

  /**
    For three-byte words the mask fails: 4 stays 4 and 8 stays 8, neither a
    multiple of 3, and an 8-byte buffer read in 3-byte steps has a word at
    offset 6 that runs past its end while its 2 words still give one address
    bit, so no error stops it. A 4-byte buffer stays one word and is rejected
    for its bus width, where rounding up to 6 bytes gives two words and one
    address bit.
  */
  lemma AlignAsWrittenMisses()
    ensures AlignAsWritten(4, 3) == 4 && 4 % 3 != 0
    ensures AlignAsWritten(8, 3) == 8 && 8 % 3 != 0
    ensures AddressWidth(AlignAsWritten(8, 3), 3) == Some(1)
    ensures 6 < AlignAsWritten(8, 3) < 6 + 3
    ensures AddressWidth(AlignAsWritten(4, 3), 3).None? && AddressWidth(AlignUp(4, 3), 3) == Some(1)
  {
    assert AndNot(3, 1) == 2;
    assert AndNot(6, 2) == 2 * AndNot(3, 1);
    assert AndNot(5, 1) == 4;
    assert AndNot(10, 2) == 2 * AndNot(5, 1);
    assert FloorLog2(2) == 1;
    assert FloorLog2(1) == 0;
    assert AlignUp(4, 3) == 6;
  }

  /** The buffer size the transform works on. */
  function WorkingSize(fileSize: nat, bytesPerWord: nat, addressed: bool): (size: nat)
    requires 1 <= bytesPerWord <= 4
    ensures size % bytesPerWord == 0
    ensures fileSize <= size
  {
    AlignUp(RoundSize(fileSize, addressed), bytesPerWord)
  }

  /** Three bytes with address bits become a four-byte buffer; five bytes in two-byte words become six. */
  lemma PaddingExamples()
    ensures WorkingSize(3, 1, true) == 4 && SizeWarnings(3, 1, true) == [NonPowerOfTwoSize(3)]
    ensures WorkingSize(5, 2, false) == 6 && SizeWarnings(5, 2, false) == [SizeNotMultiple(2)]
  {
    assert And(3, 2) == 2;
    assert Or(3, Shr(3, 1)) == 3;
    assert Shr(3, 2) == 0 && Shr(3, 4) == 0 && Shr(3, 8) == 0 && Shr(3, 16) == 0;
    assert Or(3, 0) == 3;
    assert Smear(3) == 3;
  }

  lemma {:induction false} OrAtLeast(a: nat, b: nat)
    ensures a <= Or(a, b)
    decreases a + b
  {
    if a != 0 && b != 0 {
      OrAtLeast(a / 2, b / 2);
    }
  }

  /** The warnings printed while sizing, in the order the source prints them. */
  function SizeWarnings(fileSize: nat, bytesPerWord: nat, addressed: bool): (ws: seq<Warning>)
    requires 1 <= bytesPerWord <= 4
    ensures NonPowerOfTwoSize(fileSize) in ws <==> RoundSize(fileSize, addressed) != fileSize
    ensures SizeNotMultiple(bytesPerWord) in ws
            <==> WorkingSize(fileSize, bytesPerWord, addressed) != RoundSize(fileSize, addressed)
  {
    (if addressed && SeveralBits(fileSize) then [NonPowerOfTwoSize(fileSize)] else [])
    + (if RoundSize(fileSize, addressed) % bytesPerWord != 0 then [SizeNotMultiple(bytesPerWord)] else [])
  }

  // ---------------------------------------------------------------------------
  // Address bus width

  /**
    `(int)log2(size / bytesPerWord)`, or None when that is not between 1 and
    32 (log2 of 0 words is minus infinity, which is also rejected).
  */
  function AddressWidth(size: nat, bytesPerWord: nat): (r: Option<nat>)
    requires 1 <= bytesPerWord <= 4
    ensures r.Some? ==> 1 <= r.value <= 32
    ensures r.Some? ==> Pow2(r.value) <= size / bytesPerWord < Pow2(r.value + 1)
  {
    var words := size / bytesPerWord;
    if words == 0 then None
    else
      var n := FloorLog2(words);
      if n < 1 || n > 32 then None else Some(n)
  }

  /** The width is accepted exactly when there are at least 2 and fewer than 2^33 words. */
  lemma AddressWidthRange(size: nat, bytesPerWord: nat)
    requires 1 <= bytesPerWord <= 4
    ensures AddressWidth(size, bytesPerWord).Some? <==> 2 <= size / bytesPerWord < Pow2(33)
  {
    var words := size / bytesPerWord;
    if words >= 1 {
      var n := FloorLog2(words);
      if n >= 33 {
        Pow2Monotone(33, n);
      }
      if words >= Pow2(33) && n <= 32 {
        Pow2Monotone(n + 1, 33);
      }
    }
  }

  /**
    With address bits, one-, two- or four-byte words and a file of fewer than
    2^33 bytes, an accepted buffer holds exactly 2^n words for the n address
    bits, so every n-bit word address names a word inside the buffer.
  */
  lemma AddressedSizeFillsBus(fileSize: nat, bytesPerWord: nat)
    requires bytesPerWord == 1 || bytesPerWord == 2 || bytesPerWord == 4
    requires 1 <= fileSize < Pow2(33)
    requires AddressWidth(WorkingSize(fileSize, bytesPerWord, true), bytesPerWord).Some?
    ensures WorkingSize(fileSize, bytesPerWord, true)
            == bytesPerWord * Pow2(AddressWidth(WorkingSize(fileSize, bytesPerWord, true), bytesPerWord).value)
  {
    var r := RoundSize(fileSize, true);
    RoundSizeLeastPow2(fileSize);
    PowerFillsBus(FloorLog2(r), bytesPerWord);
  }

  /** A power-of-two buffer, once accepted, holds bytesPerWord * 2^n bytes for n address bits. */
  lemma PowerFillsBus(m: nat, bytesPerWord: nat)
    requires bytesPerWord == 1 || bytesPerWord == 2 || bytesPerWord == 4
    requires AddressWidth(AlignUp(Pow2(m), bytesPerWord), bytesPerWord).Some?
    ensures AlignUp(Pow2(m), bytesPerWord)
            == bytesPerWord * Pow2(AddressWidth(AlignUp(Pow2(m), bytesPerWord), bytesPerWord).value)
  {
    if bytesPerWord == 1 {
      PowerFillsBus1(m);
    } else if bytesPerWord == 2 {
      PowerFillsBus2(m);
    } else {
      PowerFillsBus4(m);
    }
  }

  /** A size no larger than the word size pads to a single word, which gives no address bits. */
  lemma SingleWordRejected(size: nat, bytesPerWord: nat)
    requires 1 <= size <= bytesPerWord <= 4
    ensures AddressWidth(AlignUp(size, bytesPerWord), bytesPerWord).None?
  {
    var r := AlignUp(size, bytesPerWord);
    MultiplesApart(r, 0, bytesPerWord);
    assert bytesPerWord <= r < 2 * bytesPerWord;
    if bytesPerWord == 2 {
      assert r / 2 == 1;
    } else if bytesPerWord == 3 {
      assert r / 3 == 1;
    } else if bytesPerWord == 4 {
      assert r / 4 == 1;
    }
    assert FloorLog2(1) == 0;
  }

  /** An accepted buffer padded from a single power of two holds more than one word. */
  lemma SeveralWords(m: nat, bytesPerWord: nat)
    requires 1 <= bytesPerWord <= 4
    ensures AddressWidth(AlignUp(Pow2(m), bytesPerWord), bytesPerWord).Some? ==> bytesPerWord < Pow2(m)
  {
    if Pow2(m) <= bytesPerWord {
      SingleWordRejected(Pow2(m), bytesPerWord);
    }
  }

  lemma PowerFillsBus1(m: nat)
    requires AddressWidth(AlignUp(Pow2(m), 1), 1).Some?
    ensures AlignUp(Pow2(m), 1) == 1 * Pow2(AddressWidth(AlignUp(Pow2(m), 1), 1).value)
  {
    assert AlignUp(Pow2(m), 1) == Pow2(m) == Pow2(m) / 1;
    FloorLog2Unique(Pow2(m), m);
  }

  lemma PowerFillsBus2(m: nat)
    requires AddressWidth(AlignUp(Pow2(m), 2), 2).Some?
    ensures AlignUp(Pow2(m), 2) == 2 * Pow2(AddressWidth(AlignUp(Pow2(m), 2), 2).value)
  {
    SeveralWords(m, 2);
    Pow2Below(0, m);
    var half := Pow2(m - 1);
    assert Pow2(m) == 2 * half;
    assert AlignUp(Pow2(m), 2) == 2 * half;
    FloorLog2Unique(half, m - 1);
  }

  lemma PowerFillsBus4(m: nat)
    requires AddressWidth(AlignUp(Pow2(m), 4), 4).Some?
    ensures AlignUp(Pow2(m), 4) == 4 * Pow2(AddressWidth(AlignUp(Pow2(m), 4), 4).value)
  {
    SeveralWords(m, 4);
    assert Pow2(1) == 2;
    Pow2Below(1, m);
    var quarter := Pow2(m - 2);
    Pow2Add(2, m - 2);
    assert Pow2(m) == 4 * quarter;
    WholeWords4(quarter);
    FloorLog2Unique(quarter, m - 2);
  }

  /** Four times q bytes is already whole four-byte words, q of them. */
  lemma WholeWords4(q: nat)
    ensures AlignUp(4 * q, 4) == 4 * q && (4 * q) / 4 == q
  {
  }
}
