/**
  CRC-32, as the persistent cache computes it over guest code and as translated
  code computes it for the ARM CRC32 instructions (section 3.2.9 of IEEE 802.3).
 */
module Crc {
  import opened Words
  import opened Memory

  const POLYNOMIAL: bv32 := 0xEDB88320
  const INITIAL: bv32 := 0xFFFF_FFFF

  // ---- exclusive or

  function Xor(a: bv32, b: bv32): bv32 {
    a ^ b
  }

  function Wide(b: byte): bv32 {
    b as bv32
  }

  lemma XorRearrange(a: bv32, b: bv32, c: bv32, d: bv32)
    ensures Xor(Xor(a, b), Xor(c, d)) == Xor(Xor(a, c), Xor(b, d))
  {
    hide Xor;
    XorAssociative(a, b, Xor(c, d));
    XorAssociative(b, c, d);
    XorCommutes(b, c);
    XorAssociative(c, b, d);
    XorAssociative(a, c, Xor(b, d));
  }

  lemma XorCommutes(a: bv32, b: bv32)
    ensures Xor(a, b) == Xor(b, a)
  {
  }

  lemma XorAssociative(a: bv32, b: bv32, c: bv32)
    ensures Xor(Xor(a, b), c) == Xor(a, Xor(b, c))
  {
  }

  lemma XorCancels(a: bv32, b: bv32, c: bv32)
    requires Xor(a, b) == Xor(a, c)
    ensures b == c
  {
    assert a ^ (a ^ b) == b && a ^ (a ^ c) == c;
  }

  lemma XorZero(a: bv32)
    ensures Xor(a, 0) == a && Xor(a, a) == 0
  {
  }

  // ---- the register

  /** One step of the reflected register, with no input. */
  function BitStep(s: bv32): bv32 {
    Xor(s >> 1, if s & 1 == 1 then POLYNOMIAL else 0)
  }

  function Steps(s: bv32, n: nat): bv32
    decreases n
  {
    if n == 0 then s else BitStep(Steps(s, n - 1))
  }

  function ByteStep(s: bv32, b: byte): bv32 {
    Steps(Xor(s, Wide(b)), 8)
  }

  function Run(s: bv32, data: seq<byte>): bv32
    decreases |data|
  {
    if data == [] then s else Run(ByteStep(s, data[0]), data[1..])
  }

  function Not(a: bv32): bv32 {
    !a
  }

  function Crc32(data: seq<byte>): bv32 {
    Not(Run(INITIAL, data))
  }

  /** The register may be carried over a split of the data. */
  lemma {:induction false} RunSplits(s: bv32, a: seq<byte>, b: seq<byte>)
    ensures Run(s, a + b) == Run(Run(s, a), b)
    decreases |a|
  {
    hide ByteStep;
    if a == [] {
      assert a + b == b;
    } else {
      assert (a + b)[1..] == a[1..] + b;
      RunSplits(ByteStep(s, a[0]), a[1..], b);
    }
  }

  // ---- the step is linear and invertible

  function Tap(s: bv32): bv32 {
    if s & 1 == 1 then POLYNOMIAL else 0
  }

  function Half(s: bv32): bv32 {
    s >> 1
  }

  lemma HalfLinear(s: bv32, t: bv32)
    ensures Half(Xor(s, t)) == Xor(Half(s), Half(t))
  {
  }

  lemma TapLinear(s: bv32, t: bv32)
    ensures Tap(Xor(s, t)) == Xor(Tap(s), Tap(t))
  {
    assert (s ^ t) & 1 == (s & 1) ^ (t & 1);
  }

  lemma BitStepParts(s: bv32)
    ensures BitStep(s) == Xor(Half(s), Tap(s))
  {
  }

  lemma BitStepLinear(s: bv32, t: bv32)
    ensures BitStep(Xor(s, t)) == Xor(BitStep(s), BitStep(t))
  {
    hide Xor, BitStep, Half, Tap;
    BitStepParts(s);
    BitStepParts(t);
    BitStepParts(Xor(s, t));
    HalfLinear(s, t);
    TapLinear(s, t);
    XorRearrange(Half(s), Half(t), Tap(s), Tap(t));
  }

  lemma BitStepInjective(s: bv32, t: bv32)
    requires BitStep(s) == BitStep(t)
    ensures s == t
  {
  }

  lemma {:induction false} StepsLinear(s: bv32, t: bv32, n: nat)
    ensures Steps(Xor(s, t), n) == Xor(Steps(s, n), Steps(t, n))
    decreases n
  {
    hide BitStep, Xor;
    if n > 0 {
      StepsLinear(s, t, n - 1);
      BitStepLinear(Steps(s, n - 1), Steps(t, n - 1));
    }
  }

  lemma {:induction false} StepsInjective(s: bv32, t: bv32, n: nat)
    requires Steps(s, n) == Steps(t, n)
    ensures s == t
    decreases n
  {
    hide BitStep;
    if n > 0 {
      BitStepInjective(Steps(s, n - 1), Steps(t, n - 1));
      StepsInjective(s, t, n - 1);
    }
  }

  lemma {:induction false} StepsAdd(s: bv32, m: nat, n: nat)
    ensures Steps(Steps(s, m), n) == Steps(s, m + n)
    decreases n
  {
    hide BitStep;
    if n > 0 {
      StepsAdd(s, m, n - 1);
    }
  }

  predicate Even(s: bv32) {
    s & 1 == 0
  }

  /** While the bit that comes out is clear, a step only shifts. */
  lemma EvenStep(s: bv32)
    requires Even(s)
    ensures BitStep(s) == Half(s)
  {
  }

  function Quarter(s: bv32): bv32 {
    s >> 4
  }

  lemma FourEven(s: bv32)
    requires s & 0xf == 0
    ensures Even(s) && Even(Half(s)) && Even(Half(Half(s))) && Even(Half(Half(Half(s))))
    ensures Half(Half(Half(Half(s)))) == Quarter(s)
  {
  }

  lemma ShiftsOutFour(s: bv32)
    requires s & 0xf == 0
    ensures Steps(s, 4) == Quarter(s)
  {
    hide BitStep, Half, Even, Quarter;
    FourEven(s);
    EvenStep(s);
    EvenStep(Half(s));
    EvenStep(Half(Half(s)));
    EvenStep(Half(Half(Half(s))));
    assert Steps(s, 2) == Half(Half(s));
  }

  /** A register whose low eight bits are clear is only shifted by eight steps. */
  lemma ShiftsOut(s: bv32)
    requires s & 0xff == 0
    ensures Steps(s, 8) == s >> 8
  {
    hide BitStep, Steps;
    ShiftsOutFour(s);
    ShiftsOutFour(Quarter(s));
    StepsAdd(s, 4, 4);
    assert Quarter(Quarter(s)) == s >> 8;
  }

  function Low(s: bv32): bv32 {
    s & 0xff
  }

  function High(s: bv32): bv32 {
    s & 0xFFFFFF00
  }

  lemma LowHigh(s: bv32)
    ensures Xor(Low(s), High(s)) == s && High(s) & 0xff == 0 && High(s) >> 8 == s >> 8
  {
  }

  /** One table look-up does the work of eight steps of the register. */
  lemma TableStep(s: bv32)
    ensures Xor(Steps(Low(s), 8), s >> 8) == Steps(s, 8)
  {
    hide Low, High, Xor, Steps;
    LowHigh(s);
    StepsLinear(Low(s), High(s), 8);
    ShiftsOut(High(s));
  }

  // ---- the bit-serial reference

  /** Division by the reflected polynomial, one message bit at a time. */
  function FeedBit(s: bv32, bit: bool): bv32 {
    Xor(Half(s), FeedTap(s, bit))
  }

  function FeedTap(s: bv32, bit: bool): bv32 {
    if (s & 1 == 1) != bit then POLYNOMIAL else 0
  }

  function FeedBits(s: bv32, bits: seq<bool>): bv32
    decreases |bits|
  {
    if bits == [] then s else FeedBits(FeedBit(s, bits[0]), bits[1..])
  }

  predicate OddByte(b: byte) {
    b & 1 == 1
  }

  function HalfByte(b: byte): byte {
    b >> 1
  }

  /** The low n bits of a byte, least significant first. */
  function BitsOf(b: byte, n: nat): (r: seq<bool>)
    ensures |r| == n
    decreases n
  {
    if n == 0 then [] else [OddByte(b)] + BitsOf(HalfByte(b), n - 1)
  }

  function MessageBits(data: seq<byte>): seq<bool> {
    if data == [] then [] else BitsOf(data[0], 8) + MessageBits(data[1..])
  }

  function Unused(b: byte, n: nat): byte
    decreases n
  {
    if n == 0 then b else Unused(HalfByte(b), n - 1)
  }

  lemma AllUsed(b: byte)
    ensures Wide(Unused(b, 8)) == 0
  {
    hide Wide;
    var c := HalfByte(HalfByte(HalfByte(HalfByte(b))));
    assert Unused(b, 8) == Unused(c, 4) by { hide HalfByte; UnusedFour(b, 4); }
    assert Unused(c, 4) == HalfByte(HalfByte(HalfByte(HalfByte(c)))) by { hide HalfByte; UnusedFour(c, 0); }
    ByteRunsOut(b);
    assert Wide(0) == 0 by { WideZero(); }
  }

  lemma UnusedFour(b: byte, n: nat)
    ensures Unused(b, n + 4) == Unused(HalfByte(HalfByte(HalfByte(HalfByte(b)))), n)
  {
    hide HalfByte;
    assert Unused(b, n + 4) == Unused(HalfByte(b), n + 3) == Unused(HalfByte(HalfByte(b)), n + 2);
    assert Unused(HalfByte(HalfByte(b)), n + 2) == Unused(HalfByte(HalfByte(HalfByte(b))), n + 1);
  }

  lemma ByteRunsOut(b: byte)
    ensures HalfByte(HalfByte(HalfByte(HalfByte(HalfByte(HalfByte(HalfByte(HalfByte(b)))))))) == 0
  {
  }

  lemma WideZero()
    ensures Wide(0) == 0
  {
  }

  lemma HalfOfMix(s: bv32, b: byte)
    ensures Half(Xor(s, Wide(b))) == Xor(Half(s), Wide(HalfByte(b)))
  {
  }

  lemma TapOfMix(s: bv32, b: byte)
    ensures Tap(Xor(s, Wide(b))) == FeedTap(s, OddByte(b))
  {
  }

  lemma FeedBitIsStep(s: bv32, b: byte)
    ensures BitStep(Xor(s, Wide(b))) == Xor(FeedBit(s, OddByte(b)), Wide(HalfByte(b)))
  {
    hide BitStep, Xor, Half, Tap, FeedTap, Wide, OddByte, HalfByte;
    BitStepParts(Xor(s, Wide(b)));
    HalfOfMix(s, b);
    TapOfMix(s, b);
    var h, w, t := Half(s), Wide(HalfByte(b)), FeedTap(s, OddByte(b));
    XorAssociative(h, w, t);
    XorCommutes(w, t);
    XorAssociative(h, t, w);
  }

  /** Feeding n bits of b is n steps of the register with b mixed in, up to the bits of b not yet used. */
  lemma {:induction false} FeedBitsOf(s: bv32, b: byte, n: nat)
    ensures Steps(Xor(s, Wide(b)), n) == Xor(FeedBits(s, BitsOf(b, n)), Wide(Unused(b, n)))
    decreases n
  {
    hide FeedBit, BitStep, Xor, Wide, OddByte, HalfByte;
    if n > 0 {
      FeedBitIsStep(s, b);
      StepsAdd(Xor(s, Wide(b)), 1, n - 1);
      assert Steps(Xor(s, Wide(b)), 1) == BitStep(Steps(Xor(s, Wide(b)), 0));
      FeedBitsOf(FeedBit(s, OddByte(b)), HalfByte(b), n - 1);
    }
  }

  lemma {:induction false} FeedBitsSplits(s: bv32, a: seq<bool>, b: seq<bool>)
    ensures FeedBits(s, a + b) == FeedBits(FeedBits(s, a), b)
    decreases |a|
  {
    hide FeedBit;
    if a == [] {
      assert a + b == b;
    } else {
      assert (a + b)[1..] == a[1..] + b;
      FeedBitsSplits(FeedBit(s, a[0]), a[1..], b);
    }
  }

  /** The byte-wise register is the bit-serial division, for every message. */
  lemma {:induction false} RunIsBitSerial(s: bv32, data: seq<byte>)
    ensures Run(s, data) == FeedBits(s, MessageBits(data))
    decreases |data|
  {
    hide FeedBit, BitStep, BitsOf, Xor, Wide, Steps;
    if data != [] {
      FeedBitsOf(s, data[0], 8);
      AllUsed(data[0]);
      XorZero(FeedBits(s, BitsOf(data[0], 8)));
      FeedBitsSplits(s, BitsOf(data[0], 8), MessageBits(data[1..]));
      RunIsBitSerial(ByteStep(s, data[0]), data[1..]);
    }
  }

  // ---- error detection

  /** The little-endian word of at most four bytes. */
  function Word(w: seq<byte>): bv32
    requires |w| <= 4
  {
    if w == [] then 0 else Xor(Wide(w[0]), Up(Word(w[1..])))
  }

  function Up(x: bv32): bv32 {
    x << 8
  }

  predicate Fits(x: bv32, n: nat)
    requires n <= 4
  {
    match n
    case 0 => x == 0
    case 1 => x & 0xFFFFFF00 == 0
    case 2 => x & 0xFFFF0000 == 0
    case 3 => x & 0xFF000000 == 0
    case 4 => true
  }

  lemma UpFits(b: byte, x: bv32, n: nat)
    requires n <= 3 && Fits(x, n)
    ensures Fits(Xor(Wide(b), Up(x)), n + 1)
  {
    match n
    case 0 =>
    case 1 =>
    case 2 =>
    case 3 =>
  }

  lemma {:induction false} WordFits(w: seq<byte>)
    requires |w| <= 4
    ensures Fits(Word(w), |w|)
    decreases |w|
  {
    hide Wide, Up, Xor;
    if w == [] {
    } else {
      WordFits(w[1..]);
      hide Fits;
      UpFits(w[0], Word(w[1..]), |w| - 1);
    }
  }

  lemma UpStepsDown(x: bv32, n: nat)
    requires n <= 3 && Fits(x, n)
    ensures Steps(Up(x), 8) == x
  {
    hide Steps;
    UpClears(x, n);
    ShiftsOut(Up(x));
  }

  lemma UpClears(x: bv32, n: nat)
    requires n <= 3 && Fits(x, n)
    ensures Up(x) & 0xff == 0 && Up(x) >> 8 == x
  {
    hide Fits, Up;
    TopClear(x, n);
    UpThenDown(x);
  }

  lemma UpThenDown(x: bv32)
    requires x & 0xFF000000 == 0
    ensures Up(x) & 0xff == 0 && Up(x) >> 8 == x
  {
  }

  lemma TopClear(x: bv32, n: nat)
    requires n <= 3 && Fits(x, n)
    ensures x & 0xFF000000 == 0
  {
    match n
    case 0 =>
    case 1 =>
    case 2 =>
    case 3 =>
  }

  lemma Parts(a: byte, x: bv32)
    requires x & 0xFF000000 == 0
    ensures Low(Xor(Wide(a), Up(x))) == Wide(a) && Xor(Wide(a), Up(x)) >> 8 == x
  {
  }

  lemma WideInjective(a: byte, b: byte)
    requires Wide(a) == Wide(b)
    ensures a == b
  {
  }

  /** Up to four bytes enter the register as one word mixed into it. */
  lemma {:induction false} RunOfWord(s: bv32, w: seq<byte>)
    requires |w| <= 4
    ensures Run(s, w) == Steps(Xor(s, Word(w)), 8 * |w|)
    decreases |w|
  {
    hide BitStep, Wide, Up, Xor, Fits;
    if w == [] {
      XorZero(s);
    } else {
      var b, x, n := Wide(w[0]), Word(w[1..]), |w| - 1;
      WordFits(w[1..]);
      UpStepsDown(x, n);
      StepsLinear(Xor(s, b), Up(x), 8);
      XorAssociative(s, b, Up(x));
      RunOfWord(ByteStep(s, w[0]), w[1..]);
      StepsAdd(Xor(s, Word(w)), 8, 8 * n);
    }
  }

  lemma WordPartsInjective(a: byte, x: bv32, b: byte, y: bv32, n: nat)
    requires n <= 3 && Fits(x, n) && Fits(y, n)
    requires Xor(Wide(a), Up(x)) == Xor(Wide(b), Up(y))
    ensures a == b && x == y
  {
    TopClear(x, n);
    TopClear(y, n);
    Parts(a, x);
    Parts(b, y);
    hide Fits, Wide, Up, Xor, Low;
    WideInjective(a, b);
  }

  lemma {:induction false} WordInjective(v: seq<byte>, w: seq<byte>)
    requires |v| == |w| <= 4 && Word(v) == Word(w)
    ensures v == w
    decreases |v|
  {
    hide Wide, Up, Xor, Fits;
    if v != [] {
      WordFits(v[1..]);
      WordFits(w[1..]);
      WordPartsInjective(v[0], Word(v[1..]), w[0], Word(w[1..]), |v| - 1);
      WordInjective(v[1..], w[1..]);
      assert v == [v[0]] + v[1..] && w == [w[0]] + w[1..];
    }
  }

  lemma {:induction false} RunInjective(s: bv32, t: bv32, data: seq<byte>)
    requires Run(s, data) == Run(t, data)
    ensures s == t
    decreases |data|
  {
    hide BitStep, Wide, Xor;
    if data != [] {
      RunInjective(ByteStep(s, data[0]), ByteStep(t, data[0]), data[1..]);
      StepsInjective(Xor(s, Wide(data[0])), Xor(t, Wide(data[0])), 8);
      XorCommutes(s, Wide(data[0]));
      XorCommutes(t, Wide(data[0]));
      XorCancels(Wide(data[0]), s, t);
    }
  }

  /**
    Two blocks that differ only within some window of at most four bytes have
    different checksums.
   */
  lemma BurstDetected(front: seq<byte>, v: seq<byte>, w: seq<byte>, back: seq<byte>)
    requires |v| == |w| <= 4 && v != w
    ensures Crc32(front + v + back) != Crc32(front + w + back)
  {
    hide BitStep, Wide, Xor, Word;
    var s := Run(INITIAL, front);
    RunSplits(INITIAL, front + v, back);
    RunSplits(INITIAL, front, v);
    RunSplits(INITIAL, front + w, back);
    RunSplits(INITIAL, front, w);
    if Run(s, v) == Run(s, w) {
      RunOfWord(s, v);
      RunOfWord(s, w);
      StepsInjective(Xor(s, Word(v)), Xor(s, Word(w)), 8 * |v|);
      XorCancels(s, Word(v), Word(w));
      WordInjective(v, w);
    }
    if Run(Run(s, v), back) == Run(Run(s, w), back) {
      RunInjective(Run(s, v), Run(s, w), back);
    }
    hide Not;
    if Crc32(front + v + back) == Crc32(front + w + back) {
      NotInjective(Run(Run(s, v), back), Run(Run(s, w), back));
    }
  }

  lemma NotInjective(a: bv32, b: bv32)
    requires Not(a) == Not(b)
    ensures a == b
  {
    NotTwice(a);
    NotTwice(b);
    hide Not;
  }

  lemma NotTwice(a: bv32)
    ensures Not(Not(a)) == a
  {
  }

  /** Two blocks of equal length that agree outside four consecutive positions have equal checksums only if they are equal. */
  lemma EditDetected(a: seq<byte>, b: seq<byte>, i: nat)
    requires |a| == |b| && i <= |a| && a != b
    requires forall k :: 0 <= k < |a| && !(i <= k < i + 4) ==> a[k] == b[k]
    ensures Crc32(a) != Crc32(b)
  {
    var j := if i + 4 <= |a| then i + 4 else |a|;
    assert a == a[..i] + a[i..j] + a[j..];
    assert b == a[..i] + b[i..j] + a[j..];
    BurstDetected(a[..i], a[i..j], b[i..j], a[j..]);
  }

  // ---- the table and the loops over it

  /** Where the table is looked up for a register and the next byte. */
  function Index(s: bv32): (i: nat)
    ensures i < 256
  {
    Low(s) as nat
  }

  function Entry(i: nat): bv32
    requires i < 256
  {
    Steps(i as bv32, 8)
  }

  lemma IndexedEntry(s: bv32)
    ensures Entry(Index(s)) == Steps(Low(s), 8)
  {
    IndexBack(s);
    hide Steps;
  }

  lemma IndexBack(s: bv32)
    ensures Index(s) as bv32 == Low(s)
  {
    assert Low(s) < 256;
    hide Low;
    ThereAndBack(Low(s));
  }

  lemma ThereAndBack(x: bv32)
    ensures x < 256 ==> (x as nat) as bv32 == x
  {
  }

  function Down(s: bv32): bv32 {
    s >> 8
  }

  /** The loop body, for a register and a byte: one look-up and a shift. */
  lemma LookUpIsByteStep(s: bv32, b: byte)
    ensures Xor(Entry(Index(Xor(s, Wide(b)))), Down(Xor(s, Wide(b)))) == ByteStep(s, b)
    ensures Down(Xor(s, Wide(b))) == Down(s)
  {
    assert Down(Xor(s, Wide(b))) == Down(s);
    IndexedEntry(Xor(s, Wide(b)));
    TableStep(Xor(s, Wide(b)));
    hide Steps, Low, Xor, Wide, Entry, Index;
  }

  /** The byte table, which starts out incomplete and is filled the first time it is needed. */
  class Table {
    const entries: array<bv32>
    var initialized: bool

    ghost predicate Valid()
      reads this, entries
    {
      entries.Length == 256 && (initialized ==> Filled())
    }

    ghost predicate Filled()
      reads entries
    {
      entries.Length == 256 && forall i :: 0 <= i < 256 ==> entries[i] == Entry(i)
    }

    constructor ()
      ensures Valid() && fresh(entries)
    {
      entries := new bv32[256](_ => 0);
      initialized := false;
    }

    method Init()
      requires Valid()
      modifies this, entries
      ensures Valid() && initialized
    {
      hide Entry;
      if initialized {
        return;
      }
      for i := 0 to 256
        invariant forall k :: 0 <= k < i ==> entries[k] == Entry(k)
      {
        entries[i] := MakeEntry(i);
      }
      initialized := true;
    }

    static method MakeEntry(i: nat) returns (crc: bv32)
      requires i < 256
      ensures crc == Entry(i)
    {
      crc := i as bv32;
      hide BitStep, Xor;
      for j := 0 to 8
        invariant crc == Steps(i as bv32, j)
      {
        BitStepUnfolds(crc);
        crc := Xor(crc >> 1, if crc & 1 == 1 then POLYNOMIAL else 0);
      }
    }

    static lemma BitStepUnfolds(s: bv32)
      ensures BitStep(s) == Xor(s >> 1, if s & 1 == 1 then POLYNOMIAL else 0)
    {
      hide Xor;
    }

    /** The checksum of a block of bytes. */
    method ComputeHash(data: seq<byte>) returns (hash: bv32)
      requires Valid()
      modifies this, entries
      ensures Valid() && initialized && hash == Crc32(data)
    {
      hide Entry, Index, Xor, Wide, Down, ByteStep, Not;
      Init();
      var crc := INITIAL;
      assert data[..0] == [] && data[..|data|] == data;
      for i := 0 to |data|
        invariant Valid() && initialized && crc == Run(INITIAL, data[..i])
      {
        crc := Advance(crc, data[i]);
        assert data[..i + 1] == data[..i] + [data[i]];
        RunSplits(INITIAL, data[..i], [data[i]]);
        RunOne(Run(INITIAL, data[..i]), data[i]);
      }
      hash := Not(crc);
    }

    static lemma RunOne(s: bv32, b: byte)
      ensures Run(s, [b]) == ByteStep(s, b)
    {
      hide ByteStep;
      assert [b][1..] == [];
    }

    method Advance(crc: bv32, b: byte) returns (r: bv32)
      requires Filled()
      ensures r == ByteStep(crc, b)
    {
      LookUpIsByteStep(crc, b);
      hide Entry, Index, Xor, Wide, Down, ByteStep;
      r := Xor(entries[Index(Xor(crc, Wide(b)))], Down(crc));
    }

    /** The CRC32 instructions: the low `size` bytes of the data word enter the register. */
    method Ieee8023(crc: bv32, data: bv64, size: int) returns (r: bv32)
      requires Valid()
      modifies this, entries
      ensures Valid() && initialized && r == Run(crc, LowBytes(data, if size < 0 then 0 else size))
    {
      hide Entry, Index, Xor, Wide, Down, ByteStep, LowByte, Drop;
      Init();
      r := crc;
      var rest := data;
      var n := if size < 0 then 0 else size;
      for i := 0 to n
        invariant Valid() && initialized
        invariant Run(r, LowBytes(rest, n - i)) == Run(crc, LowBytes(data, n))
      {
        assert LowBytes(rest, n - i)[1..] == LowBytes(Drop(rest), n - i - 1);
        r := Advance(r, LowByte(rest));
        rest := Drop(rest);
      }
    }
  }

  function LowByte(x: bv64): byte {
    (x & 0xff) as bv8
  }

  function Drop(x: bv64): bv64 {
    x >> 8
  }

  /** The little-endian bytes of a 64-bit word, zeros after the eighth. */
  function LowBytes(x: bv64, n: nat): (r: seq<byte>)
    ensures |r| == n
    decreases n
  {
    if n == 0 then [] else [LowByte(x)] + LowBytes(Drop(x), n - 1)
  }

  lemma LowBytesOfWord(x: bv64)
    ensures LowBytes(x, 8) == Le64(x)
  {
    BytesAt(x);
    BytesAtHigh(x);
    hide LowByte, Drop;
    LowBytesFour(x, 4);
    LowBytesFour(Drop(Drop(Drop(Drop(x)))), 0);
  }

  lemma BytesAt(x: bv64)
    ensures LowByte(x) == (x & 0xff) as bv8 && LowByte(Drop(x)) == ((x >> 8) & 0xff) as bv8
    ensures LowByte(Drop(Drop(x))) == ((x >> 16) & 0xff) as bv8 && LowByte(Drop(Drop(Drop(x)))) == ((x >> 24) & 0xff) as bv8
  {
  }

  lemma BytesAtHigh(x: bv64)
    ensures var y := Drop(Drop(Drop(Drop(x))));
            && LowByte(y) == ((x >> 32) & 0xff) as bv8 && LowByte(Drop(y)) == ((x >> 40) & 0xff) as bv8
            && LowByte(Drop(Drop(y))) == ((x >> 48) & 0xff) as bv8 && LowByte(Drop(Drop(Drop(y)))) == ((x >> 56) & 0xff) as bv8
  {
  }

  lemma LowBytesFour(x: bv64, n: nat)
    ensures LowBytes(x, n + 4) == [LowByte(x), LowByte(Drop(x)), LowByte(Drop(Drop(x))), LowByte(Drop(Drop(Drop(x))))]
                                  + LowBytes(Drop(Drop(Drop(Drop(x)))), n)
  {
    hide LowByte, Drop;
    assert LowBytes(x, n + 4) == [LowByte(x)] + LowBytes(Drop(x), n + 3);
    assert LowBytes(Drop(x), n + 3) == [LowByte(Drop(x))] + LowBytes(Drop(Drop(x)), n + 2);
    assert LowBytes(Drop(Drop(x)), n + 2) == [LowByte(Drop(Drop(x)))] + LowBytes(Drop(Drop(Drop(x))), n + 1);
  }
}
