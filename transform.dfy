/**
  The swizzle engine proper: size the buffer, parse the address and data bit
  orders, then move every word of the zero-padded input to the output slot its
  swizzled address names, with its bits reordered.  Reading and writing the
  files is not modelled: the input is the file's contents as a byte sequence
  and the outcome carries the bytes that would be written.
*/
module Transform {
  import opened Bits
  import opened Wrappers
  import opened Diagnostics
  import opened Words
  import opened Permutation
  import opened WordSwizzle
  import opened BitOrder
  import opened Sizing

  /** The command-line choices the engine acts on (file paths are left to the caller). */
  datatype Options = Options(addrBits: Option<string>, dataBits: Option<string>, bytesPerWord: nat, bigEndian: bool)

  /** What a run produces: the output image, or the fatal error that stopped it; with the warnings printed either way. */
  datatype Outcome =
    | Done(image: seq<Byte>, warnings: seq<Warning>)
    | Failed(error: Fatal, warnings: seq<Warning>)

  /** Everything the transform loop needs once sizing and parsing are over. */
  datatype Plan = Plan(bytesPerWord: nat, bigEndian: bool, addrOrder: Option<seq<nat>>, addrWidth: nat, dataOrder: Option<seq<nat>>)

  /** Word size in range and each bit order as long as the bus it reorders. */
  predicate WellFormed(plan: Plan)
  {
    1 <= plan.bytesPerWord <= 4 &&
    (plan.addrOrder.Some? ==> |plan.addrOrder.value| == plan.addrWidth) &&
    (plan.dataOrder.Some? ==> |plan.dataOrder.value| == 8 * plan.bytesPerWord)
  }

  /** A plan for a buffer of size bytes: whole words, and room for every address the address bus can name. */
  predicate ValidPlan(plan: Plan, size: nat)
  {
    WellFormed(plan) && size % plan.bytesPerWord == 0 &&
    (plan.addrOrder.Some? ==> Pow2(plan.addrWidth) <= size / plan.bytesPerWord)
  }

  // ---------------------------------------------------------------------------
  // Word arithmetic for one- to four-byte words

  /** Byte p lies in word slot t exactly when p / w == t, at offset p % w. */
  lemma SlotOf(p: nat, t: nat, w: nat)
    requires 1 <= w <= 4
    ensures (w * t <= p < w * t + w) <==> p / w == t
    ensures p / w == t ==> p % w == p - w * t
  {
    if w == 2 {
      assert (2 * t <= p < 2 * t + 2) <==> p / 2 == t;
    } else if w == 3 {
      assert (3 * t <= p < 3 * t + 3) <==> p / 3 == t;
    } else if w == 4 {
      assert (4 * t <= p < 4 * t + 4) <==> p / 4 == t;
    }
  }

  /** Word j of a buffer of whole words lies inside it when j is below the word count. */
  lemma WordFits(j: nat, w: nat, size: nat)
    requires 1 <= w <= 4 && size % w == 0 && j < size / w
    ensures w * j + w <= size
  {
    if w == 2 {
      assert 2 * j + 2 <= size;
    } else if w == 3 {
      assert 3 * j + 3 <= size;
    } else if w == 4 {
      assert 4 * j + 4 <= size;
    }
  }

  /** The step from word j to word j + 1 inside a buffer of whole words. */
  lemma NextWord(j: nat, w: nat, size: nat)
    requires 1 <= w <= 4 && size % w == 0 && j < size / w
    ensures w * (j + 1) == w * j + w <= size
    ensures j + 1 <= size / w
  {
    if w == 2 {
      assert 2 * (j + 1) == 2 * j + 2 <= size;
    } else if w == 3 {
      assert 3 * (j + 1) == 3 * j + 3 <= size;
    } else if w == 4 {
      assert 4 * (j + 1) == 4 * j + 4 <= size;
    }
  }

  /** Stepping pos by w from 0 visits word j at pos == w * j, and pos / w recovers j. */
  lemma WordOfPos(j: nat, w: nat)
    requires 1 <= w <= 4
    ensures (w * j) / w == j
  {
    SlotOf(w * j, j, w);
  }

  // ---------------------------------------------------------------------------
  // What the transform loop computes

  /** The output word slot that input word j goes to: its swizzled address, or j itself. */
  function Target(plan: Plan, j: nat): (t: nat)
    requires WellFormed(plan)
    ensures plan.addrOrder.Some? ==> t < Pow2(plan.addrWidth)
  {
    if plan.addrOrder.Some? then Swizzled(j, plan.addrOrder.value, plan.addrWidth) else j
  }

  /** A data word after the data bit order, if there is one. */
  function DataOf(plan: Plan, data: nat): nat
    requires WellFormed(plan)
  {
    if plan.dataOrder.Some? then Swizzled(data, plan.dataOrder.value, 8 * plan.bytesPerWord) else data
  }

  /** Input word j: bytes w * j to w * j + w - 1. */
  function WordAt(inData: seq<Byte>, w: nat, j: nat): (bs: seq<Byte>)
    requires w * j + w <= |inData|
    ensures |bs| == w
  {
    inData[w * j .. w * j + w]
  }

  /** The bytes the loop stores for input word j: decoded, swizzled and encoded again. */
  function Moved(plan: Plan, inData: seq<Byte>, j: nat): (bs: seq<Byte>)
    requires WellFormed(plan) && plan.bytesPerWord * j + plan.bytesPerWord <= |inData|
    ensures |bs| == plan.bytesPerWord
  {
    var w := plan.bytesPerWord;
    Encode(DataOf(plan, Decode(WordAt(inData, w, j), plan.bigEndian)), w, plan.bigEndian)
  }

  /** The last of words 0 .. done - 1 that goes to slot, since later stores overwrite earlier ones. */
  function LastWriter(plan: Plan, done: nat, slot: nat): (r: Option<nat>)
    requires WellFormed(plan)
    ensures r.Some? ==> r.value < done && Target(plan, r.value) == slot
    ensures r.Some? ==> forall j :: r.value < j < done ==> Target(plan, j) != slot
    ensures r.None? ==> forall j :: 0 <= j < done ==> Target(plan, j) != slot
  {
    if done == 0 then None
    else if Target(plan, done - 1) == slot then Some(done - 1)
    else LastWriter(plan, done - 1, slot)
  }

  /** Byte p of the output after the first done words: the last store into its slot, or 0 from calloc. */
  function ByteAfter(plan: Plan, inData: seq<Byte>, done: nat, p: nat): Byte
    requires ValidPlan(plan, |inData|) && done <= |inData| / plan.bytesPerWord
  {
    var w := plan.bytesPerWord;
    match LastWriter(plan, done, p / w)
    case None => 0
    case Some(j) =>
      WordFits(j, w, |inData|);
      SlotOf(p, p / w, w);
      Moved(plan, inData, j)[p % w]
  }

  /** The whole output buffer after the first done words. */
  function ImageAfter(plan: Plan, inData: seq<Byte>, done: nat): (image: seq<Byte>)
    requires ValidPlan(plan, |inData|) && done <= |inData| / plan.bytesPerWord
    ensures |image| == |inData|
  {
    seq(|inData|, p requires 0 <= p < |inData| => ByteAfter(plan, inData, done, p))
  }

  /** The output buffer once every word has been moved. */
  function Image(plan: Plan, inData: seq<Byte>): (image: seq<Byte>)
    requires ValidPlan(plan, |inData|)
    ensures |image| == |inData|
  {
    ImageAfter(plan, inData, |inData| / plan.bytesPerWord)
  }

  /** Every word lands inside the buffer. */
  lemma TargetInRange(plan: Plan, size: nat, j: nat)
    requires ValidPlan(plan, size) && j < size / plan.bytesPerWord
    ensures Target(plan, j) < size / plan.bytesPerWord
    ensures plan.bytesPerWord * Target(plan, j) + plan.bytesPerWord <= size
  {
    WordFits(Target(plan, j), plan.bytesPerWord, size);
  }

  /** Storing word j into its slot turns the image after j words into the image after j + 1. */
  lemma ImageStep(plan: Plan, inData: seq<Byte>, j: nat, out: nat, bytes: seq<Byte>, before: seq<Byte>, after: seq<Byte>)
    requires ValidPlan(plan, |inData|) && j < |inData| / plan.bytesPerWord
    requires before == ImageAfter(plan, inData, j) && |after| == |inData|
    requires plan.bytesPerWord * j + plan.bytesPerWord <= |inData|
    requires out == plan.bytesPerWord * Target(plan, j) && bytes == Moved(plan, inData, j)
    requires forall p :: 0 <= p < |inData| ==>
               after[p] == if out <= p < out + plan.bytesPerWord then bytes[p - out] else before[p]
    ensures after == ImageAfter(plan, inData, j + 1)
  {
    var w := plan.bytesPerWord;
    var t := Target(plan, j);
    forall p | 0 <= p < |inData|
      ensures after[p] == ByteAfter(plan, inData, j + 1, p)
    {
      SlotOf(p, t, w);
    }
  }

  // ---------------------------------------------------------------------------
  // The transform loop

  /**
    One pass of the transform loop: the output address (swizzled when there
    is an address order), the data word read in the configured byte order,
    swizzled when there is a data order, and stored at the output address.
  */
  method MoveWord(plan: Plan, inData: seq<Byte>, outData: array<Byte>, pos: nat, ghost j: nat)
    requires ValidPlan(plan, |inData|) && j < |inData| / plan.bytesPerWord
    requires pos == plan.bytesPerWord * j
    requires outData.Length == |inData| && outData[..] == ImageAfter(plan, inData, j)
    modifies outData
    ensures outData[..] == ImageAfter(plan, inData, j + 1)
  {
    var w := plan.bytesPerWord;
    WordOfPos(j, w);
    WordFits(j, w, |inData|);
    var outAddr: nat := pos;
    if plan.addrOrder.Some? {
      var slot := SwizzleWord(pos / w, plan.addrOrder.value, plan.addrWidth);
      outAddr := w * slot;
    }
    assert outAddr == w * Target(plan, j);
    TargetInRange(plan, |inData|, j);
    var data := ReadWord(inData, pos, w, plan.bigEndian);
    if plan.dataOrder.Some? {
      data := SwizzleWord(data, plan.dataOrder.value, 8 * w);
    }
    assert Encode(data, w, plan.bigEndian) == Moved(plan, inData, j);
    ghost var before := outData[..];
    WriteWord(outData, outAddr, data, w, plan.bigEndian);
    ImageStep(plan, inData, j, outAddr, Encode(data, w, plan.bigEndian), before, outData[..]);
  }

  /** The transform loop over the padded input, one word position at a time. */
  method Relocate(plan: Plan, inData: seq<Byte>) returns (image: seq<Byte>)
    requires ValidPlan(plan, |inData|)
    ensures image == Image(plan, inData)
  {
    var w := plan.bytesPerWord;
    var outData := new Byte[|inData|](_ => 0);
    var pos: nat := 0;
    ghost var j: nat := 0;
    assert outData[..] == ImageAfter(plan, inData, 0);
    while pos < |inData|
      invariant pos == w * j && pos <= |inData| && j <= |inData| / w
      invariant outData[..] == ImageAfter(plan, inData, j)
    {
      NextWord(j, w, |inData|);
      MoveWord(plan, inData, outData, pos, j);
      pos := pos + w;
      j := j + 1;
    }
    WordOfPos(j, w);
    assert j == |inData| / w;
    image := outData[..];
  }

  // ---------------------------------------------------------------------------
  // The whole run

  /** The input as calloc and fread leave it: the file's bytes, then zeros up to size. */
  function Padded(input: seq<Byte>, size: nat): (inData: seq<Byte>)
    requires |input| <= size
    ensures |inData| == size && inData[..|input|] == input
    ensures forall p :: |input| <= p < size ==> inData[p] == 0
  {
    input + seq(size - |input|, _ => 0)
  }

  /** The two parsed bit orders, each present when its list was given. */
  datatype Orders = Orders(addrOrder: Option<seq<nat>>, dataOrder: Option<seq<nat>>)

  /**
    The address list is parsed for n address bits, then the data list for
    8 bits per byte; the first failure ends the run.
  */
  function ParsedOrders(opts: Options, n: nat): (r: Result<Orders, Fatal>)
    ensures r.Success? ==> (r.value.addrOrder.Some? <==> opts.addrBits.Some?)
    ensures r.Success? ==> (r.value.dataOrder.Some? <==> opts.dataBits.Some?)
    ensures r.Success? && r.value.addrOrder.Some? ==> |r.value.addrOrder.value| == n
    ensures r.Success? && r.value.dataOrder.Some? ==> |r.value.dataOrder.value| == 8 * opts.bytesPerWord
  {
    var addr := if opts.addrBits.Some? then ParseOrder(opts.addrBits.value, n, Address) else Success([]);
    var data := if opts.dataBits.Some? then ParseOrder(opts.dataBits.value, 8 * opts.bytesPerWord, Data) else Success([]);
    if addr.Failure? then Failure(addr.error)
    else if data.Failure? then Failure(data.error)
    else Success(Orders(if opts.addrBits.Some? then Some(addr.value) else None,
                        if opts.dataBits.Some? then Some(data.value) else None))
  }

  /** The warnings the two parses print; the data list is not reached when the address list fails. */
  function OrderWarnings(opts: Options, n: nat): seq<Warning>
  {
    var addrFails := opts.addrBits.Some? && ParseOrder(opts.addrBits.value, n, Address).Failure?;
    (if opts.addrBits.Some? then ParseWarnings(opts.addrBits.value, n, Address) else [])
    + (if opts.dataBits.Some? && !addrFails then ParseWarnings(opts.dataBits.value, 8 * opts.bytesPerWord, Data) else [])
  }

  /**
    The outcome of a run, step by step as the engine takes them. The size
    warnings always come first; the bus-width error happens exactly when the
    buffer does not give 1 to 32 address bits; an image is as long as the buffer.
  */
  function SwizzleSpec(input: seq<Byte>, opts: Options): (r: Outcome)
    requires 1 <= opts.bytesPerWord <= 4
    ensures SizeWarnings(|input|, opts.bytesPerWord, opts.addrBits.Some?) <= r.warnings
    ensures (r.Failed? && r.error == AddressBusWidth)
            <==> AddressWidth(WorkingSize(|input|, opts.bytesPerWord, opts.addrBits.Some?), opts.bytesPerWord).None?
    ensures r.Done? ==> |r.image| == WorkingSize(|input|, opts.bytesPerWord, opts.addrBits.Some?)
  {
    var w := opts.bytesPerWord;
    var size := WorkingSize(|input|, w, opts.addrBits.Some?);
    var sizeWarnings := SizeWarnings(|input|, w, opts.addrBits.Some?);
    match AddressWidth(size, w)
    case None => Failed(AddressBusWidth, sizeWarnings)
    case Some(n) =>
      var warnings := sizeWarnings + OrderWarnings(opts, n);
      match ParsedOrders(opts, n)
      case Failure(e) => Failed(e, warnings)
      case Success(orders) =>
        Done(Image(Plan(w, opts.bigEndian, orders.addrOrder, n, orders.dataOrder), Padded(input, size)), warnings)
  }

  /**
    The sizing steps of swizzle: when address bits are reordered, a size
    that is not a power of two draws a warning and is smeared (each set bit
    copied into all the bits below it) and incremented; then a size that is
    not a whole number of words draws a warning and is rounded up.
  */
  method BufferSize(fileSize: nat, w: nat, addressed: bool) returns (inSize: nat, warnings: seq<Warning>)
    requires 1 <= w <= 4
    ensures inSize == WorkingSize(fileSize, w, addressed)
    ensures warnings == SizeWarnings(fileSize, w, addressed)
  {
    warnings := [];
    inSize := fileSize;
    if addressed && inSize > 0 && And(inSize, inSize - 1) != 0 {
      warnings := warnings + [NonPowerOfTwoSize(inSize)];
      inSize := Or(inSize, Shr(inSize, 1));
      inSize := Or(inSize, Shr(inSize, 2));
      inSize := Or(inSize, Shr(inSize, 4));
      inSize := Or(inSize, Shr(inSize, 8));
      inSize := Or(inSize, Shr(inSize, 16));
      inSize := inSize + 1;
    }
    assert inSize == RoundSize(fileSize, addressed);
    if inSize % w != 0 {
      warnings := warnings + [SizeNotMultiple(w)];
      inSize := inSize + (w - 1);
      inSize := inSize - inSize % w;
    }
  }

  /** The two parseBits calls of swizzle: the address list for n bits, then the data list for 8 bits per byte. */
  method ParseOrders(opts: Options, n: nat) returns (r: Result<Orders, Fatal>, warnings: seq<Warning>)
    ensures r == ParsedOrders(opts, n)
    ensures warnings == OrderWarnings(opts, n)
  {
    warnings := [];
    var addrOrder: Option<seq<nat>> := None;
    if opts.addrBits.Some? {
      var parsed, found := ParseBits(opts.addrBits.value, n, Address);
      warnings := found;
      if parsed.Failure? {
        return Failure(parsed.error), warnings;
      }
      addrOrder := Some(parsed.value);
    }
    var dataOrder: Option<seq<nat>> := None;
    if opts.dataBits.Some? {
      var parsed, found := ParseBits(opts.dataBits.value, 8 * opts.bytesPerWord, Data);
      warnings := warnings + found;
      if parsed.Failure? {
        return Failure(parsed.error), warnings;
      }
      dataOrder := Some(parsed.value);
    }
    return Success(Orders(addrOrder, dataOrder)), warnings;
  }

  /** With no usable address bus width the run stops with the size warnings. */
  lemma SpecNoBus(input: seq<Byte>, opts: Options)
    requires 1 <= opts.bytesPerWord <= 4
    requires AddressWidth(WorkingSize(|input|, opts.bytesPerWord, opts.addrBits.Some?), opts.bytesPerWord).None?
    ensures SwizzleSpec(input, opts) == Failed(AddressBusWidth, SizeWarnings(|input|, opts.bytesPerWord, opts.addrBits.Some?))
  {
  }

  /** A failed parse stops the run with the warnings printed so far. */
  lemma SpecParseFailed(input: seq<Byte>, opts: Options, n: nat)
    requires 1 <= opts.bytesPerWord <= 4
    requires AddressWidth(WorkingSize(|input|, opts.bytesPerWord, opts.addrBits.Some?), opts.bytesPerWord) == Some(n)
    requires ParsedOrders(opts, n).Failure?
    ensures SwizzleSpec(input, opts)
            == Failed(ParsedOrders(opts, n).error,
                      SizeWarnings(|input|, opts.bytesPerWord, opts.addrBits.Some?) + OrderWarnings(opts, n))
  {
  }

  /** Once both orders parse, the plan fits the buffer and the run ends with the image of the padded input. */
  lemma SpecDone(input: seq<Byte>, opts: Options, size: nat, n: nat, orders: Orders)
    requires 1 <= opts.bytesPerWord <= 4
    requires size == WorkingSize(|input|, opts.bytesPerWord, opts.addrBits.Some?)
    requires AddressWidth(size, opts.bytesPerWord) == Some(n)
    requires ParsedOrders(opts, n) == Success(orders)
    ensures ValidPlan(Plan(opts.bytesPerWord, opts.bigEndian, orders.addrOrder, n, orders.dataOrder), size)
    ensures SwizzleSpec(input, opts)
            == Done(Image(Plan(opts.bytesPerWord, opts.bigEndian, orders.addrOrder, n, orders.dataOrder), Padded(input, size)),
                    SizeWarnings(|input|, opts.bytesPerWord, opts.addrBits.Some?) + OrderWarnings(opts, n))
  {
  }

  /**
    An address index outside [0, n) ends the run with an error naming the
    first such token. The warnings are the size warnings and the repeats among
    the address tokens before it; the data list is never read.
  */
  lemma AddressIndexOutOfRange(input: seq<Byte>, opts: Options, n: nat, k: nat)
    requires 1 <= opts.bytesPerWord <= 4
    requires opts.addrBits.Some?
    requires AddressWidth(WorkingSize(|input|, opts.bytesPerWord, true), opts.bytesPerWord) == Some(n)
    requires k < |TokenValues(opts.addrBits.value)| && !(0 <= TokenValues(opts.addrBits.value)[k] < n)
    ensures var vals := TokenValues(opts.addrBits.value);
            exists b :: 0 <= b <= k && !(0 <= vals[b] < n) && (forall j :: 0 <= j < b ==> 0 <= vals[j] < n)
              && SwizzleSpec(input, opts)
                 == Failed(InvalidBitIndex(Address, vals[b], n),
                           SizeWarnings(|input|, opts.bytesPerWord, true) + Repeats(Address, vals[..b]))
  {
    var vals := TokenValues(opts.addrBits.value);
    var b := FirstInvalid(vals, n);
    ParsedInvalid(opts.addrBits.value, n, Address, b);
    assert OrderWarnings(opts, n) == Repeats(Address, vals[..b]);
  }

  /**
    swizzle: size the buffer, compute the address bus width and reject it
    outside 1 to 32, parse the address and data orders, and run the
    transform loop on the input padded with zeros to the buffer size.
  */
  method Swizzle(input: seq<Byte>, opts: Options) returns (r: Outcome)
    requires 1 <= opts.bytesPerWord <= 4
    ensures r == SwizzleSpec(input, opts)
  {
    var w := opts.bytesPerWord;
    var inSize, warnings := BufferSize(|input|, w, opts.addrBits.Some?);
    var width := AddressWidth(inSize, w);
    if width.None? {
      SpecNoBus(input, opts);
      return Failed(AddressBusWidth, warnings);
    }
    var numAddrBits := width.value;
    var orders, found := ParseOrders(opts, numAddrBits);
    warnings := warnings + found;
    if orders.Failure? {
      SpecParseFailed(input, opts, numAddrBits);
      return Failed(orders.error, warnings);
    }
    SpecDone(input, opts, inSize, numAddrBits, orders.value);
    var plan := Plan(w, opts.bigEndian, orders.value.addrOrder, numAddrBits, orders.value.dataOrder);
    var inData := input + seq(inSize - |input|, _ => 0);
    assert inData == Padded(input, inSize);
    var image := Relocate(plan, inData);
    return Done(image, warnings);
  }

  // ---------------------------------------------------------------------------
  // Laws of the transform

  /** A byte below a whole-word size lies in a word below the word count. */
  lemma ByteInWord(p: nat, w: nat, size: nat)
    requires 1 <= w <= 4 && size % w == 0 && p < size
    ensures p / w < size / w
  {
    if w == 2 {
      assert p / 2 < size / 2;
    } else if w == 3 {
      assert p / 3 < size / 3;
    } else if w == 4 {
      assert p / 4 < size / 4;
    }
  }

  /** Word j lands in the output when no later word shares its slot: byte i of the slot holds byte i of the moved word. */
  lemma ImageOfWord(plan: Plan, inData: seq<Byte>, j: nat, i: nat)
    requires ValidPlan(plan, |inData|) && j < |inData| / plan.bytesPerWord && i < plan.bytesPerWord
    requires forall j' :: j < j' < |inData| / plan.bytesPerWord ==> Target(plan, j') != Target(plan, j)
    ensures plan.bytesPerWord * j + plan.bytesPerWord <= |inData|
    ensures plan.bytesPerWord * Target(plan, j) + i < |inData|
    ensures Image(plan, inData)[plan.bytesPerWord * Target(plan, j) + i] == Moved(plan, inData, j)[i]
  {
    var w := plan.bytesPerWord;
    var t := Target(plan, j);
    WordFits(j, w, |inData|);
    TargetInRange(plan, |inData|, j);
    var p := w * t + i;
    SlotOf(p, t, w);
    LastWriterIs(plan, |inData| / w, t, j);
    assert Image(plan, inData)[p] == ByteAfter(plan, inData, |inData| / w, p);
  }

  /** A word that goes to slot with no later word going there is its last writer. */
  lemma {:induction false} LastWriterIs(plan: Plan, done: nat, slot: nat, j: nat)
    requires WellFormed(plan) && j < done && Target(plan, j) == slot
    requires forall j' :: j < j' < done ==> Target(plan, j') != slot
    ensures LastWriter(plan, done, slot) == Some(j)
  {
    if done - 1 != j {
      LastWriterIs(plan, done - 1, slot, j);
    }
  }

  /** A byte whose word slot no input word targets keeps the zero calloc gave it. */
  lemma UnwrittenStaysZero(plan: Plan, inData: seq<Byte>, p: nat)
    requires ValidPlan(plan, |inData|) && p < |inData|
    requires forall j :: 0 <= j < |inData| / plan.bytesPerWord ==> Target(plan, j) != p / plan.bytesPerWord
    ensures Image(plan, inData)[p] == 0
  {
  }

  /** Without an address order every word stays in place: byte p is byte p % w of moved word p / w. */
  lemma ImageInPlace(plan: Plan, inData: seq<Byte>, p: nat)
    requires ValidPlan(plan, |inData|) && plan.addrOrder.None? && p < |inData|
    ensures plan.bytesPerWord * (p / plan.bytesPerWord) + plan.bytesPerWord <= |inData|
    ensures Image(plan, inData)[p] == Moved(plan, inData, p / plan.bytesPerWord)[p % plan.bytesPerWord]
  {
    var w := plan.bytesPerWord;
    var j := p / w;
    ByteInWord(p, w, |inData|);
    SlotOf(p, j, w);
    ImageOfWord(plan, inData, j, p % w);
  }

  /** With neither order the transform writes back exactly what it read. */
  lemma ImageWithoutOrders(plan: Plan, inData: seq<Byte>)
    requires ValidPlan(plan, |inData|) && plan.addrOrder.None? && plan.dataOrder.None?
    ensures Image(plan, inData) == inData
  {
    forall p | 0 <= p < |inData|
      ensures Image(plan, inData)[p] == inData[p]
    {
      ByteKept(plan, inData, p);
    }
  }

  lemma ByteKept(plan: Plan, inData: seq<Byte>, p: nat)
    requires ValidPlan(plan, |inData|) && plan.addrOrder.None? && plan.dataOrder.None? && p < |inData|
    ensures Image(plan, inData)[p] == inData[p]
  {
    var w := plan.bytesPerWord;
    var j := p / w;
    ImageInPlace(plan, inData, p);
    SlotOf(p, j, w);
    MovedUnchanged(plan, inData, j);
    assert WordAt(inData, w, j)[p % w] == inData[w * j + p % w];
  }

  /** Without a data order the stored bytes are the bytes read. */
  lemma MovedUnchanged(plan: Plan, inData: seq<Byte>, j: nat)
    requires WellFormed(plan) && plan.dataOrder.None?
    requires plan.bytesPerWord * j + plan.bytesPerWord <= |inData|
    ensures Moved(plan, inData, j) == WordAt(inData, plan.bytesPerWord, j)
  {
    EncodeDecode(WordAt(inData, plan.bytesPerWord, j), plan.bigEndian);
  }

  /**
    Under an address permutation on a buffer of exactly 2^n words, every
    input word j lands in slot Swizzled(j): no other word shares its slot.
  */
  lemma PermutedWord(plan: Plan, inData: seq<Byte>, j: nat, i: nat)
    requires ValidPlan(plan, |inData|) && plan.addrOrder.Some?
    requires IsPermutation(plan.addrOrder.value, plan.addrWidth)
    requires |inData| == plan.bytesPerWord * Pow2(plan.addrWidth)
    requires j < Pow2(plan.addrWidth) && i < plan.bytesPerWord
    ensures plan.bytesPerWord * j + plan.bytesPerWord <= |inData|
    ensures plan.bytesPerWord * Swizzled(j, plan.addrOrder.value, plan.addrWidth) + i < |inData|
    ensures Image(plan, inData)[plan.bytesPerWord * Swizzled(j, plan.addrOrder.value, plan.addrWidth) + i]
            == Moved(plan, inData, j)[i]
  {
    var w := plan.bytesPerWord;
    var n := plan.addrWidth;
    WordOfPos(Pow2(n), w);
    forall j' | j < j' < |inData| / w
      ensures Target(plan, j') != Target(plan, j)
    {
      if Target(plan, j') == Target(plan, j) {
        SwizzleInjective(j, j', plan.addrOrder.value, n);
      }
    }
    ImageOfWord(plan, inData, j, i);
  }

  /** Under an address permutation every output word slot below 2^n is written by exactly one input word. */
  lemma PermutedSlotsOnce(plan: Plan, t: nat)
    requires WellFormed(plan) && plan.addrOrder.Some?
    requires IsPermutation(plan.addrOrder.value, plan.addrWidth)
    requires t < Pow2(plan.addrWidth)
    ensures exists j :: 0 <= j < Pow2(plan.addrWidth) && Target(plan, j) == t
    ensures forall j1, j2 ::
              (0 <= j1 < Pow2(plan.addrWidth) && 0 <= j2 < Pow2(plan.addrWidth) &&
               Target(plan, j1) == t && Target(plan, j2) == t) ==> j1 == j2
  {
    var order := plan.addrOrder.value;
    var n := plan.addrWidth;
    var j := Swizzled(t, Inverse(order, n), n);
    SwizzleInverse(t, order, n);
    assert Target(plan, j) == t;
    forall j1, j2 | 0 <= j1 < Pow2(n) && 0 <= j2 < Pow2(n) && Target(plan, j1) == t && Target(plan, j2) == t
      ensures j1 == j2
    {
      SwizzleInjective(j1, j2, order, n);
    }
  }

  /** A run with neither bit list copies the input, zero-padded to whole words, or stops for a bus that is too narrow or too wide. */
  lemma CopyWithoutOrders(input: seq<Byte>, opts: Options)
    requires 1 <= opts.bytesPerWord <= 4 && opts.addrBits.None? && opts.dataBits.None?
    ensures var size := AlignUp(|input|, opts.bytesPerWord);
            var warnings := SizeWarnings(|input|, opts.bytesPerWord, false);
            SwizzleSpec(input, opts)
            == if AddressWidth(size, opts.bytesPerWord).Some? then Done(Padded(input, size), warnings)
               else Failed(AddressBusWidth, warnings)
  {
    var w := opts.bytesPerWord;
    var size := WorkingSize(|input|, w, false);
    assert size == AlignUp(|input|, w);
    match AddressWidth(size, w)
    case None =>
    case Some(n) =>
      assert ParsedOrders(opts, n) == Success(Orders(None, None));
      assert OrderWarnings(opts, n) == [];
      ImageWithoutOrders(Plan(w, opts.bigEndian, None, n, None), Padded(input, size));
  }

  /** A buffer of fewer than two words is rejected before either bit list is read. */
  lemma FewerThanTwoWords(input: seq<Byte>, opts: Options)
    requires 1 <= opts.bytesPerWord <= 4
    requires WorkingSize(|input|, opts.bytesPerWord, opts.addrBits.Some?) / opts.bytesPerWord < 2
    ensures SwizzleSpec(input, opts) == Failed(AddressBusWidth, SizeWarnings(|input|, opts.bytesPerWord, opts.addrBits.Some?))
  {
    AddressWidthRange(WorkingSize(|input|, opts.bytesPerWord, opts.addrBits.Some?), opts.bytesPerWord);
  }

  /** With one-byte words and the data list 0,1,2,3,4,5,6,7, bit k of every output byte is bit 7 - k of the input byte. */
  lemma ReversesEveryByte(input: seq<Byte>, bigEndian: bool, p: nat, k: nat)
    requires 2 <= |input| < Pow2(33) && p < |input| && k < 8
    ensures var r := SwizzleSpec(input, Options(None, Some("0,1,2,3,4,5,6,7"), 1, bigEndian));
            r.Done? && |r.image| == |input| && Bit(r.image[p], k) == Bit(input[p], 7 - k)
  {
    BitReversalOrder();
    ReversedDataBits(input, "0,1,2,3,4,5,6,7", bigEndian, p, k);
  }

  /** With one-byte words and a data list that parses to the order 7, 6, ..., 0, every output byte is its input byte bit-reversed. */
  lemma ReversedDataBits(input: seq<Byte>, dataList: string, bigEndian: bool, p: nat, k: nat)
    requires 2 <= |input| < Pow2(33) && p < |input| && k < 8
    requires ParseOrder(dataList, 8, Data) == Success([7, 6, 5, 4, 3, 2, 1, 0])
    ensures var r := SwizzleSpec(input, Options(None, Some(dataList), 1, bigEndian));
            r.Done? && |r.image| == |input| && Bit(r.image[p], k) == Bit(input[p], 7 - k)
  {
    var opts := Options(None, Some(dataList), 1, bigEndian);
    var rev: seq<nat> := [7, 6, 5, 4, 3, 2, 1, 0];
    assert WorkingSize(|input|, 1, false) == |input|;
    AddressWidthRange(|input|, 1);
    var n := AddressWidth(|input|, 1).value;
    assert ParsedOrders(opts, n) == Success(Orders(None, Some(rev)));
    var plan := Plan(1, bigEndian, None, n, Some(rev));
    var inData := Padded(input, |input|);
    assert inData == input;
    SpecDone(input, opts, |input|, n, Orders(None, Some(rev)));
    ReversedByte(plan, inData, p, k);
  }

  /** Byte p of the image under the data order 7, 6, ..., 0 with one-byte words. */
  lemma ReversedByte(plan: Plan, inData: seq<Byte>, p: nat, k: nat)
    requires plan.bytesPerWord == 1 && plan.addrOrder.None? && plan.dataOrder == Some([7, 6, 5, 4, 3, 2, 1, 0])
    requires ValidPlan(plan, |inData|) && p < |inData| && k < 8
    ensures Bit(Image(plan, inData)[p], k) == Bit(inData[p], 7 - k)
  {
    var rev: seq<nat> := [7, 6, 5, 4, 3, 2, 1, 0];
    ImageInPlace(plan, inData, p);
    var b := inData[p];
    assert WordAt(inData, 1, p) == [b];
    var out := Swizzled(b, rev, 8);
    assert Pow2(8) == 256;
    ByteCodec(b, plan.bigEndian);
    ByteCodec(out, plan.bigEndian);
    assert Moved(plan, inData, p) == [out];
    BitReversal(b, k);
  }

  /** A one-byte word decodes to its byte and a byte-sized value encodes to itself, in either byte order. */
  lemma ByteCodec(b: nat, bigEndian: bool)
    requires b < 256
    ensures Decode([b], bigEndian) == b && Encode(b, 1, bigEndian) == [b]
  {
    assert Pow2(8) == 256;
    DecodeEncode(b, 1, bigEndian);
    EncodeDecode([b], bigEndian);
  }
}
