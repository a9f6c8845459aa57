/**
  parseBits: turns a comma-separated bit list, most significant output bit
  first, into the array of source bit indices that the word swizzler reads
  (entry i is the source of output bit i).
*/
module BitOrder {
  import opened Bits
  import opened Wrappers
  import opened Diagnostics
  import opened Tokens
  import opened Permutation
  import opened WordSwizzle

  /** atoi of each field in turn. */
  function AtoiAll(fields: seq<string>): (vals: seq<int>)
    ensures |vals| == |fields|
  {
    if fields == [] then [] else [Atoi(fields[0])] + AtoiAll(fields[1..])
  }

  lemma {:induction false} AtoiAllAt(fields: seq<string>, k: nat)
    requires k < |fields|
    ensures AtoiAll(fields)[k] == Atoi(fields[k])
  {
    if k > 0 {
      AtoiAllAt(fields[1..], k - 1);
    }
  }

  /** The numbers atoi reads from the successive strtok fields of the list. */
  function TokenValues(text: string): (vals: seq<int>)
    ensures |vals| == |Fields(text)|
  {
    AtoiAll(Fields(text))
  }

  /** The position of the first value outside [0, count), or |vals| when all are inside. */
  function FirstInvalid(vals: seq<int>, count: nat): (k: nat)
    ensures k <= |vals|
    ensures forall j :: 0 <= j < k ==> 0 <= vals[j] < count
    ensures k < |vals| ==> !(0 <= vals[k] < count)
  {
    if vals == [] then 0
    else if !(0 <= vals[0] < count) then 0
    else 1 + FirstInvalid(vals[1..], count)
  }

  /** One warning per value that already occurred earlier in the list, in list order. */
  function Repeats(kind: BitKind, vals: seq<int>): (ws: seq<Warning>)
    ensures |ws| <= |vals|
    ensures forall i :: 0 <= i < |ws| ==> ws[i].RepeatedBitIndex? && ws[i].kind == kind && ws[i].index in vals
  {
    if vals == [] then []
    else
      var last := vals[|vals| - 1];
      Repeats(kind, vals[..|vals| - 1]) + (if last in vals[..|vals| - 1] then [RepeatedBitIndex(kind, last)] else [])
  }

  /**
    What parseBits leaves behind: the first out-of-range index is fatal, then a
    token count other than count is fatal; otherwise token k fills slot
    count - 1 - k.
  */
  function ParseOrder(text: string, count: nat, kind: BitKind): (r: Result<seq<nat>, Fatal>)
    ensures r.Success? ==> |r.value| == count && forall q :: 0 <= q < count ==> r.value[q] < count
  {
    var vals := TokenValues(text);
    var bad := FirstInvalid(vals, count);
    if bad < |vals| then Failure(InvalidBitIndex(kind, vals[bad], count))
    else if |vals| != count then Failure(BitCountMismatch(kind, count, |vals|))
    else Success(seq(count, q requires 0 <= q < count => vals[count - 1 - q] as nat))
  }

  /**
    The warnings parseBits prints: repeats among the tokens it checked before
    stopping, so each names an index that is in range.
  */
  function ParseWarnings(text: string, count: nat, kind: BitKind): (ws: seq<Warning>)
    ensures forall i :: 0 <= i < |ws| ==>
              ws[i].RepeatedBitIndex? && ws[i].kind == kind && 0 <= ws[i].index < count
  {
    var vals := TokenValues(text);
    Repeats(kind, vals[..FirstInvalid(vals, count)])
  }

  /**
    parseBits: walks the strtok fields, stores each atoi value at dest[pos - 1]
    while pos counts down from count, stops at the first index outside
    [0, count), warns on an index whose bit is already set in the bitsFound
    mask, and finally insists on exactly count tokens.
  */
  method ParseBits(text: string, count: nat, kind: BitKind) returns (r: Result<seq<nat>, Fatal>, warnings: seq<Warning>)
    ensures r == ParseOrder(text, count, kind)
    ensures warnings == ParseWarnings(text, count, kind)
  {
    var tokens := Fields(text);
    ghost var vals := TokenValues(text);
    var dest := new int[count](_ => 0);
    var pos: int := count;
    var bitsFound: nat := 0;
    warnings := [];
    var k := 0;
    ghost var seen: seq<int> := [];
    assert dest[..] == Slots(vals, 0, count);
    while k < |tokens|
      invariant k <= |tokens| && pos == count - k
      invariant k <= FirstInvalid(vals, count)
      invariant dest[..] == Slots(vals, k, count)
      invariant seen == vals[..k]
      invariant bitsFound == MaskOf(seen)
      invariant warnings == Repeats(kind, seen)
    {
      var index := Atoi(tokens[k]);
      AtoiAllAt(tokens, k);
      assert index == vals[k];
      SlotsStep(vals, k, count);
      ghost var before := dest[..];
      if pos > 0 {
        dest[pos - 1] := index;
        assert dest[..] == before[pos - 1 := index] == Slots(vals, k, count)[count - 1 - k := vals[k]];
      }
      assert dest[..] == Slots(vals, k + 1, count);
      if index < 0 || index >= count {
        FirstInvalidIs(vals, count, k);
        ParsedInvalid(text, count, kind, k);
        r := Failure(InvalidBitIndex(kind, index, count));
        return;
      }
      FirstInvalidStep(vals, count, k);
      RecordStep(kind, seen, index);
      if And(bitsFound, Shl(1, index)) != 0 {
        warnings := warnings + [RepeatedBitIndex(kind, index)];
      }
      bitsFound := Or(bitsFound, Shl(1, index));
      PrefixStep(vals, k);
      seen := seen + [index];
      assert seen == vals[..k + 1];
      assert dest[..] == Slots(vals, k + 1, count);
      pos := pos - 1;
      k := k + 1;
    }
    assert seen == vals;
    FirstInvalidIs(vals, count, k);
    ParsedAllValid(text, count, kind);
    if pos != 0 {
      r := Failure(BitCountMismatch(kind, count, count - pos));
      return;
    }
    SlotsFull(vals, count);
    r := Success(dest[..]);
  }

  /** A valid value at k moves the first invalid position past k. */
  lemma FirstInvalidStep(vals: seq<int>, count: nat, k: nat)
    requires k <= FirstInvalid(vals, count) && k < |vals| && 0 <= vals[k] < count
    ensures k + 1 <= FirstInvalid(vals, count)
  {
  }

  /** The first invalid position is k when it is not before k and vals[k], if any, is invalid. */
  lemma FirstInvalidIs(vals: seq<int>, count: nat, k: nat)
    requires k <= FirstInvalid(vals, count)
    requires k < |vals| ==> !(0 <= vals[k] < count)
    ensures FirstInvalid(vals, count) == k
  {
  }

  /** The outcome when the value at bad is the first one out of range. */
  lemma ParsedInvalid(text: string, count: nat, kind: BitKind, bad: nat)
    requires bad == FirstInvalid(TokenValues(text), count) && bad < |TokenValues(text)|
    ensures ParseWarnings(text, count, kind) == Repeats(kind, TokenValues(text)[..bad])
    ensures ParseOrder(text, count, kind) == Failure(InvalidBitIndex(kind, TokenValues(text)[bad], count))
  {
  }

  /** The outcome when every value is in range: a count check, then the slots. */
  lemma ParsedAllValid(text: string, count: nat, kind: BitKind)
    requires FirstInvalid(TokenValues(text), count) == |TokenValues(text)|
    ensures ParseWarnings(text, count, kind) == Repeats(kind, TokenValues(text))
    ensures |TokenValues(text)| != count ==>
              ParseOrder(text, count, kind) == Failure(BitCountMismatch(kind, count, |TokenValues(text)|))
    ensures |TokenValues(text)| == count ==>
              ParseOrder(text, count, kind)
              == Success(seq(count, q requires 0 <= q < count => TokenValues(text)[count - 1 - q] as nat))
  {
    var vals := TokenValues(text);
    assert vals[..|vals|] == vals;
  }

  /** The slots of dest after k tokens: slot count - 1 - j holds token j, the rest are still 0. */
  ghost function Slots(vals: seq<int>, k: nat, count: nat): (slots: seq<int>)
    requires k <= |vals|
    ensures |slots| == count
  {
    seq(count, q requires 0 <= q < count => if q >= count - k then vals[count - 1 - q] else 0)
  }

  /** Token k lands in slot count - 1 - k while there is one; later tokens change nothing. */
  lemma SlotsStep(vals: seq<int>, k: nat, count: nat)
    requires k < |vals|
    ensures k < count ==> Slots(vals, k + 1, count) == Slots(vals, k, count)[count - 1 - k := vals[k]]
    ensures k >= count ==> Slots(vals, k + 1, count) == Slots(vals, k, count)
  {
  }

  lemma SlotsFull(vals: seq<int>, count: nat)
    requires |vals| == count
    requires forall j :: 0 <= j < count ==> 0 <= vals[j] < count
    ensures Slots(vals, count, count) == seq(count, q requires 0 <= q < count => vals[count - 1 - q] as nat)
  {
  }

  /**
    One pass of the loop over a valid index: a warning exactly when its bit
    is already in the mask of the values seen, and its bit joins the mask.
  */
  lemma RecordStep(kind: BitKind, seen: seq<int>, index: nat)
    ensures (And(MaskOf(seen), Shl(1, index)) != 0) <==> index in seen
    ensures Repeats(kind, seen + [index])
            == Repeats(kind, seen) + (if index in seen then [RepeatedBitIndex(kind, index)] else [])
    ensures MaskOf(seen + [index]) == Or(MaskOf(seen), Shl(1, index))
  {
    var grown := seen + [index];
    assert grown[..|grown| - 1] == seen;
    assert Shl(1, index) == Pow2(index);
    AndPow2(MaskOf(seen), index);
    MaskOfBits(seen, index);
  }

  /** Taking one more value onto a prefix. */
  lemma PrefixStep(vals: seq<int>, k: nat)
    requires k < |vals|
    ensures vals[..k + 1] == vals[..k] + [vals[k]]
  {
  }

  /** The bitsFound mask after the values seen: bit v set for each value v (negative values set none). */
  function MaskOf(vals: seq<int>): nat
  {
    if vals == [] then 0
    else
      var last := vals[|vals| - 1];
      Or(MaskOf(vals[..|vals| - 1]), if last >= 0 then Shl(1, last as nat) else 0)
  }

  /** Bit b of the mask is set exactly when b is among the values seen. */
  lemma {:induction false} MaskOfBits(vals: seq<int>, b: nat)
    ensures Bit(MaskOf(vals), b) <==> b in vals
  {
    if vals == [] {
      BitOfZero(b);
    } else {
      var init := vals[..|vals| - 1];
      var last := vals[|vals| - 1];
      assert vals == init + [last];
      MaskOfBits(init, b);
      var x := if last >= 0 then Shl(1, last as nat) else 0;
      BitOr(MaskOf(init), x, b);
      if last >= 0 {
        assert x == Pow2(last as nat);
        BitPow2(last as nat, b);
      } else {
        BitOfZero(b);
      }
    }
  }

  // ---------------------------------------------------------------------------
  // What the parsed order means

  /**
    The list reads most significant output bit first: the k-th listed index
    (from 0) becomes the source of output bit count - 1 - k.
  */
  lemma ParsedMsbFirst(text: string, count: nat, kind: BitKind, word: nat, k: nat)
    requires ParseOrder(text, count, kind).Success?
    requires k < |TokenValues(text)|
    ensures |TokenValues(text)| == count
    ensures Bit(Swizzled(word, ParseOrder(text, count, kind).value, count), count - 1 - k)
            == Bit(word, TokenValues(text)[k])
  {
    SwizzledBit(word, ParseOrder(text, count, kind).value, count, count - 1 - k);
  }

  /** When parsing fails, and why: a range error names the first bad index, a count error the number of tokens. */
  lemma ParseOrderErrors(text: string, count: nat, kind: BitKind)
    ensures var r := ParseOrder(text, count, kind);
            var vals := TokenValues(text);
            (r.Failure? && r.error.InvalidBitIndex? <==>
               exists k :: 0 <= k < |vals| && !(0 <= vals[k] < count))
            && (r.Failure? && r.error.InvalidBitIndex? ==>
               exists k :: 0 <= k < |vals| && !(0 <= vals[k] < count)
                 && r.error == InvalidBitIndex(kind, vals[k], count)
                 && forall j :: 0 <= j < k ==> 0 <= vals[j] < count)
            && (r.Failure? && r.error.BitCountMismatch? <==>
               (forall k :: 0 <= k < |vals| ==> 0 <= vals[k] < count) && |vals| != count)
            && (r.Failure? && r.error.BitCountMismatch? ==> r.error == BitCountMismatch(kind, count, |vals|))
  {
    var vals := TokenValues(text);
    var bad := FirstInvalid(vals, count);
    if bad < |vals| {
      assert !(0 <= vals[bad] < count);
    }
  }

  lemma {:induction false} RepeatsEmptyIffDistinct(kind: BitKind, vals: seq<int>)
    ensures Repeats(kind, vals) == [] <==> forall i, j :: 0 <= i < j < |vals| ==> vals[i] != vals[j]
  {
    if vals != [] {
      var init := vals[..|vals| - 1];
      RepeatsEmptyIffDistinct(kind, init);
      var last := vals[|vals| - 1];
      if last in init {
        var i :| 0 <= i < |init| && init[i] == last;
        assert vals[i] == vals[|vals| - 1];
      }
      if Repeats(kind, init) != [] {
        assert |Repeats(kind, vals)| >= |Repeats(kind, init)|;
      }
    }
  }

  /** Reading a list backwards keeps it free of repeats, and the other way round. */
  lemma ReversedDistinct(vals: seq<int>, order: seq<nat>, count: nat)
    requires |vals| == count && |order| == count
    requires forall q :: 0 <= q < count ==> order[q] == vals[count - 1 - q]
    ensures (forall i, j :: 0 <= i < j < count ==> vals[i] != vals[j])
            <==> (forall i, j :: 0 <= i < j < count ==> order[i] != order[j])
  {
    if forall i, j :: 0 <= i < j < count ==> vals[i] != vals[j] {
      forall i, j | 0 <= i < j < count
        ensures order[i] != order[j]
      {
        assert order[i] == vals[count - 1 - i] && order[j] == vals[count - 1 - j];
      }
    }
    if forall i, j :: 0 <= i < j < count ==> order[i] != order[j] {
      forall i, j | 0 <= i < j < count
        ensures vals[i] != vals[j]
      {
        assert order[count - 1 - i] == vals[i] && order[count - 1 - j] == vals[j];
      }
    }
  }

  /**
    A list that parses without any repeat warning is a permutation of the
    indices below count, and a permutation list never draws one.
  */
  lemma ParsedPermutation(text: string, count: nat, kind: BitKind)
    requires ParseOrder(text, count, kind).Success?
    ensures ParseWarnings(text, count, kind) == [] <==> IsPermutation(ParseOrder(text, count, kind).value, count)
  {
    var vals := TokenValues(text);
    var order := ParseOrder(text, count, kind).value;
    assert FirstInvalid(vals, count) == |vals| == count;
    ParsedAllValid(text, count, kind);
    assert forall q :: 0 <= q < count ==> order[q] == vals[count - 1 - q];
    assert ParseWarnings(text, count, kind) == Repeats(kind, vals);
    RepeatsEmptyIffDistinct(kind, vals);
    ReversedDistinct(vals, order, count);
    assert IsPermutation(order, count) <==> forall i, j :: 0 <= i < j < count ==> order[i] != order[j];
  }

  /** An empty field, as in "0,,1", yields no token: the list parses as if the extra comma were absent. */
  lemma EmptyFieldIgnored(a: string, b: string, count: nat, kind: BitKind)
    ensures ParseOrder(a + [',', ','] + b, count, kind) == ParseOrder(a + [','] + b, count, kind)
    ensures ParseWarnings(a + [',', ','] + b, count, kind) == ParseWarnings(a + [','] + b, count, kind)
  {
    DoubledComma(a, b);
  }

  /** The decimal numerals of vs, joined by commas. */
  function Listing(vs: seq<nat>): string
  {
    Join(seq(|vs|, i requires 0 <= i < |vs| => Decimal(vs[i])))
  }

  /** A list written out as decimal numerals parses back, with the first value in the top slot. */
  lemma ParseOrderOfListing(vs: seq<nat>, count: nat, kind: BitKind)
    requires |vs| == count
    requires forall i :: 0 <= i < count ==> vs[i] < count
    ensures ParseOrder(Listing(vs), count, kind)
            == Success(seq(count, q requires 0 <= q < count => vs[count - 1 - q]))
  {
    var numerals := seq(|vs|, i requires 0 <= i < |vs| => Decimal(vs[i]));
    FieldsOfJoin(numerals);
    var vals := TokenValues(Listing(vs));
    forall i | 0 <= i < |vs|
      ensures vals[i] == vs[i]
    {
      AtoiAllAt(numerals, i);
      AtoiOfDecimal(vs[i]);
    }
    assert vals == vs;
    assert FirstInvalid(vals, count) == |vals|;
  }

  /** The documented example list "0,1,2,3,4,5,6,7" reads, on one-byte words, as the bit-reversing order. */
  lemma BitReversalOrder()
    ensures ParseOrder("0,1,2,3,4,5,6,7", 8, Data) == Success([7, 6, 5, 4, 3, 2, 1, 0])
  {
    var vs: seq<nat> := [0, 1, 2, 3, 4, 5, 6, 7];
    ExampleListing();
    ExampleReversed(vs);
    ParseOrderOfListing(vs, 8, Data);
  }

  /** Reading the example list backwards gives the bit-reversing order. */
  lemma ExampleReversed(vs: seq<nat>)
    requires vs == [0, 1, 2, 3, 4, 5, 6, 7]
    ensures seq(8, q requires 0 <= q < 8 => vs[8 - 1 - q]) == [7, 6, 5, 4, 3, 2, 1, 0]
  {
  }

  lemma ExampleListing()
    ensures Listing([0, 1, 2, 3, 4, 5, 6, 7]) == "0,1,2,3,4,5,6,7"
  {
    var vs: seq<nat> := [0, 1, 2, 3, 4, 5, 6, 7];
    assert seq(|vs|, i requires 0 <= i < |vs| => Decimal(vs[i])) == ["0", "1", "2", "3", "4", "5", "6", "7"];
    ExampleJoin();
  }

  lemma ExampleJoin()
    ensures Join(["0", "1", "2", "3", "4", "5", "6", "7"]) == "0,1,2,3,4,5,6,7"
  {
    var numerals := ["0", "1", "2", "3", "4", "5", "6", "7"];
    assert Join(numerals[7..]) == "7";
    assert Join(numerals[6..]) == "6,7";
    assert Join(numerals[5..]) == "5,6,7";
    assert Join(numerals[4..]) == "4,5,6,7";
    assert Join(numerals[3..]) == "3,4,5,6,7";
    assert Join(numerals[2..]) == "2,3,4,5,6,7";
    assert Join(numerals[1..]) == "1,2,3,4,5,6,7";
  }

  /** That order reverses the bits of every byte: output bit k is input bit 7 - k. */
  lemma BitReversal(b: nat, k: nat)
    requires k < 8
    ensures Bit(Swizzled(b, [7, 6, 5, 4, 3, 2, 1, 0], 8), k) == Bit(b, 7 - k)
  {
    SwizzledBit(b, [7, 6, 5, 4, 3, 2, 1, 0], 8, k);
  }
}
