/**
  Words of 1 to 4 bytes: how the transform loop decodes `bytesPerWord` bytes
  of the input buffer into an unsigned value and encodes a value back into
  the output buffer, in big-endian or little-endian byte order.
*/
module Words {
  import opened Bits

  /** One byte of a buffer (`unsigned char`). */
  type Byte = b: nat | b < 256

  /** Value of bytes read least significant first. */
  function LeValue(bs: seq<Byte>): nat
  {
    if bs == [] then 0 else bs[0] + 256 * LeValue(bs[1..])
  }

  /** Value of bytes read most significant first. */
  function BeValue(bs: seq<Byte>): nat
  {
    if bs == [] then 0 else 256 * BeValue(bs[..|bs| - 1]) + bs[|bs| - 1]
  }

  /** The n low bytes of v, least significant first. */
  function LeBytes(v: nat, n: nat): (r: seq<Byte>)
    ensures |r| == n
  {
    if n == 0 then [] else [v % 256] + LeBytes(v / 256, n - 1)
  }

  /** The n low bytes of v, most significant first. */
  function BeBytes(v: nat, n: nat): (r: seq<Byte>)
    ensures |r| == n
  {
    if n == 0 then [] else BeBytes(v / 256, n - 1) + [v % 256]
  }

  /** The word that a run of bytes holds in the configured byte order. */
  function Decode(bs: seq<Byte>, bigEndian: bool): nat
  {
    if bigEndian then BeValue(bs) else LeValue(bs)
  }

  /** The n bytes that hold v in the configured byte order (higher bits are dropped). */
  function Encode(v: nat, n: nat, bigEndian: bool): (r: seq<Byte>)
    ensures |r| == n
  {
    if bigEndian then BeBytes(v, n) else LeBytes(v, n)
  }

  // ---------------------------------------------------------------------------
  // Laws of the byte orders

  /** A decoded word fits in 8 bits per byte. */
  lemma {:induction false} DecodeBound(bs: seq<Byte>, bigEndian: bool)
    ensures Decode(bs, bigEndian) < Pow2(8 * |bs|)
  {
    if bigEndian {
      BeValueBound(bs);
    } else {
      LeValueBound(bs);
    }
  }

  lemma {:induction false} LeValueBound(bs: seq<Byte>)
    ensures LeValue(bs) < Pow2(8 * |bs|)
  {
    if bs != [] {
      LeValueBound(bs[1..]);
      Pow2Add(8, 8 * (|bs| - 1));
      assert Pow2(8) == 256;
    }
  }

  lemma {:induction false} BeValueBound(bs: seq<Byte>)
    ensures BeValue(bs) < Pow2(8 * |bs|)
  {
    if bs != [] {
      BeValueBound(bs[..|bs| - 1]);
      Pow2Add(8, 8 * (|bs| - 1));
      assert Pow2(8) == 256;
    }
  }

  /** Decoding the encoding of a word that fits gives the word back. */
  lemma {:induction false} DecodeEncode(v: nat, n: nat, bigEndian: bool)
    requires v < Pow2(8 * n)
    ensures Decode(Encode(v, n, bigEndian), bigEndian) == v
  {
    if n > 0 {
      Pow2Add(8, 8 * (n - 1));
      assert Pow2(8) == 256;
      assert v / 256 < Pow2(8 * (n - 1));
      DecodeEncode(v / 256, n - 1, bigEndian);
      if bigEndian {
        var r := BeBytes(v, n);
        assert r[..|r| - 1] == BeBytes(v / 256, n - 1);
      } else {
        var r := LeBytes(v, n);
        assert r[1..] == LeBytes(v / 256, n - 1);
      }
    }
  }

  /** Encoding a decoded run of bytes gives the same bytes back. */
  lemma {:induction false} EncodeDecode(bs: seq<Byte>, bigEndian: bool)
    ensures Encode(Decode(bs, bigEndian), |bs|, bigEndian) == bs
  {
    if bs != [] {
      if bigEndian {
        var init := bs[..|bs| - 1];
        EncodeDecode(init, true);
        assert BeValue(bs) / 256 == BeValue(init);
        assert bs == init + [bs[|bs| - 1]];
      } else {
        EncodeDecode(bs[1..], false);
        assert LeValue(bs) / 256 == LeValue(bs[1..]);
        assert bs == [bs[0]] + bs[1..];
      }
    }
  }

  /** Byte i of the little-endian encoding is `v >> (8 * i)` truncated to a byte. */
  lemma {:induction false} LeBytesAt(v: nat, n: nat, i: nat)
    requires i < n
    ensures LeBytes(v, n)[i] == Shr(v, 8 * i) % 256
  {
    if i > 0 {
      LeBytesAt(v / 256, n - 1, i - 1);
      ShrShr(v, 8, 8 * (i - 1));
      Shr8(v);
    }
  }

  /** Byte i of the big-endian encoding is `v >> (8 * (n - i - 1))` truncated to a byte. */
  lemma {:induction false} BeBytesAt(v: nat, n: nat, i: nat)
    requires i < n
    ensures BeBytes(v, n)[i] == Shr(v, 8 * (n - i - 1)) % 256
  {
    if i < n - 1 {
      BeBytesAt(v / 256, n - 1, i);
      ShrShr(v, 8, 8 * (n - 1 - i - 1));
      Shr8(v);
    }
  }

  lemma {:induction false} LeValueSnoc(bs: seq<Byte>, b: Byte)
    ensures LeValue(bs + [b]) == LeValue(bs) + Shl(b, 8 * |bs|)
  {
    if bs == [] {
      assert LeValue([b]) == b + 256 * LeValue([]);
    } else {
      var rest := bs[1..];
      assert (bs + [b])[1..] == rest + [b];
      LeValueSnoc(rest, b);
      var p := Pow2(8 * |rest|);
      Pow2Add(8, 8 * |rest|);
      assert Pow2(8) == 256;
      assert Shl(b, 8 * |bs|) == b * (256 * p);
      ScaledSum(bs[0], LeValue(rest), b, p);
    }
  }

  /** One step of the big-endian read loop: the next byte goes just below those already read. */
  lemma BeReadStep(hi: nat, b: Byte, m: nat)
    ensures Or(Shl(hi, m + 8), Shl(b, m)) == Shl(256 * hi + b, m)
  {
    var p := Pow2(m);
    Pow2Add(8, m);
    assert Pow2(8) == 256;
    ByteBelow(b, p);
    OrAbove(hi, b * p, m + 8);
    ShiftedSum(hi, b, p);
  }

  lemma ByteBelow(b: Byte, p: nat)
    requires p >= 1
    ensures b * p < 256 * p
  {
  }

  lemma ScaledSum(a: nat, l: nat, b: nat, p: nat)
    ensures a + 256 * (l + b * p) == a + 256 * l + b * (256 * p)
  {
  }

  lemma ShiftedSum(hi: nat, b: nat, p: nat)
    ensures hi * (256 * p) + b * p == (256 * hi + b) * p
  {
  }

  /** One step of the little-endian read loop: the next byte goes just above those already read. */
  lemma LeReadStep(bs: seq<Byte>, b: Byte)
    ensures Or(LeValue(bs), Shl(b, 8 * |bs|)) == LeValue(bs + [b])
  {
    LeValueSnoc(bs, b);
    LeValueBound(bs);
    OrAbove(b, LeValue(bs), 8 * |bs|);
  }

  // ---------------------------------------------------------------------------
  // The two byte loops of the transform

  /**
    Reads the word at `inData[pos .. pos + bytesPerWord]`, OR-ing each byte in
    at its shifted position as the transform loop does.
  */
  method ReadWord(inData: seq<Byte>, pos: nat, bytesPerWord: nat, bigEndian: bool) returns (data: nat)
    requires pos + bytesPerWord <= |inData|
    ensures data == Decode(inData[pos .. pos + bytesPerWord], bigEndian)
  {
    ghost var bs := inData[pos .. pos + bytesPerWord];
    data := 0;
    if bigEndian {
      for i := 0 to bytesPerWord
        invariant data == Shl(BeValue(bs[..i]), 8 * (bytesPerWord - i))
      {
        assert bs[..i + 1][..i] == bs[..i];
        BeReadStep(BeValue(bs[..i]), bs[i], 8 * (bytesPerWord - i - 1));
        data := Or(data, Shl(inData[pos + i], 8 * (bytesPerWord - i - 1)));
      }
      assert bs[..bytesPerWord] == bs;
    } else {
      for i := 0 to bytesPerWord
        invariant data == LeValue(bs[..i])
      {
        assert bs[..i + 1] == bs[..i] + [bs[i]];
        LeReadStep(bs[..i], bs[i]);
        data := Or(data, Shl(inData[pos + i], 8 * i));
      }
      assert bs[..bytesPerWord] == bs;
    }
  }

  /**
    Stores `data` at `outData[outAddr .. outAddr + bytesPerWord]`, one shifted
    and truncated byte at a time; nothing else in the buffer changes.
  */
  method WriteWord(outData: array<Byte>, outAddr: nat, data: nat, bytesPerWord: nat, bigEndian: bool)
    requires outAddr + bytesPerWord <= outData.Length
    modifies outData
    ensures forall p :: 0 <= p < outData.Length ==>
              outData[p] == if outAddr <= p < outAddr + bytesPerWord
                            then Encode(data, bytesPerWord, bigEndian)[p - outAddr]
                            else old(outData[p])
  {
    ghost var enc := Encode(data, bytesPerWord, bigEndian);
    for i := 0 to bytesPerWord
      invariant forall p :: 0 <= p < outData.Length ==>
                  outData[p] == if outAddr <= p < outAddr + i then enc[p - outAddr] else old(outData[p])
    {
      if bigEndian {
        BeBytesAt(data, bytesPerWord, i);
        outData[outAddr + i] := Shr(data, 8 * (bytesPerWord - i - 1)) % 256;
      } else {
        LeBytesAt(data, bytesPerWord, i);
        outData[outAddr + i] := Shr(data, 8 * i) % 256;
      }
    }
  }
}
