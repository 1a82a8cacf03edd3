/** The 64-bit content hash by which equal guest code shares one translation. */
module CodeHash {
  import opened Words
  import opened LittleEndian
  import opened Powers

  const SEED: u64 := 0x9e3779b97f4a7c15
  const PRIME: u64 := 0xbf58476d1ce4e5b9
  const MIX1: u64 := 0xff51afd7ed558ccd
  const MIX2: u64 := 0xc4ceb9fe1a85ec53

  // ---- 64-bit words as numbers: exclusive or, right shift, wrapping multiplication

  function Xor(a: nat, b: nat): nat
    decreases a + b
  {
    if a == 0 && b == 0 then 0 else WithLowBit(a, b, Xor(a / 2, b / 2))
  }

  function WithLowBit(a: nat, b: nat, rest: nat): nat {
    (a % 2 + b % 2) % 2 + 2 * rest
  }

  function Shr(a: nat, n: nat): nat
    decreases n
  {
    if n == 0 then a else Shr(a / 2, n - 1)
  }

  function Scale(h: u64, c: u64): u64 {
    (h * c) % TWO64
  }

  lemma {:induction false} XorBelow(a: nat, b: nat, n: nat)
    requires a < Pow2(n) && b < Pow2(n)
    ensures Xor(a, b) < Pow2(n)
    decreases n
  {
    if n > 0 && (a > 0 || b > 0) {
      XorBelow(a / 2, b / 2, n - 1);
    }
  }

  lemma XorParts(a: nat, b: nat)
    ensures Xor(a, b) % 2 == (a % 2 + b % 2) % 2 && Xor(a, b) / 2 == Xor(a / 2, b / 2)
  {
    hide WithLowBit;
    if a > 0 || b > 0 {
      assert Xor(a, b) == WithLowBit(a, b, Xor(a / 2, b / 2));
      hide Xor;
      LowBit(a, b, Xor(a / 2, b / 2));
    }
  }

  lemma LowBit(a: nat, b: nat, rest: nat)
    ensures WithLowBit(a, b, rest) % 2 == (a % 2 + b % 2) % 2 && WithLowBit(a, b, rest) / 2 == rest
  {
  }

  lemma FromParts(a: nat, b: nat)
    requires a % 2 == b % 2 && a / 2 == b / 2
    ensures a == b
  {
  }

  lemma LowBitUndoes(a: nat, b: nat, x: nat, y: nat)
    requires x % 2 == (a % 2 + b % 2) % 2 && y % 2 == (x % 2 + b % 2) % 2
    ensures y % 2 == a % 2
  {
  }

  lemma {:induction false} XorUndoes(a: nat, b: nat)
    ensures Xor(Xor(a, b), b) == a
    decreases a + b
  {
    if a > 0 || b > 0 {
      hide *;
      var x := Xor(a, b);
      var y := Xor(x, b);
      XorUndoes(a / 2, b / 2);
      XorParts(a, b);
      XorParts(x, b);
      UndoneParts(a, b, x, y);
    }
  }

  lemma UndoneParts(a: nat, b: nat, x: nat, y: nat)
    requires x % 2 == (a % 2 + b % 2) % 2 && y % 2 == (x % 2 + b % 2) % 2 && y / 2 == a / 2
    ensures y == a
  {
    LowBitUndoes(a, b, x, y);
    FromParts(y, a);
  }

  lemma {:induction false} XorCommutes(a: nat, b: nat)
    ensures Xor(a, b) == Xor(b, a)
    decreases a + b
  {
    if a > 0 || b > 0 {
      XorCommutes(a / 2, b / 2);
    }
  }

  lemma {:induction false} XorZero(a: nat)
    ensures Xor(a, 0) == a
  {
    hide Xor;
    XorParts(a, 0);
    if a > 0 {
      XorZero(a / 2);
    } else {
      assert Xor(0, 0) == 0 by { XorNothing(); }
    }
    FromParts(Xor(a, 0), a);
  }

  lemma XorNothing()
    ensures Xor(0, 0) == 0
  {
  }

  lemma {:induction false} XorShifts(a: nat, b: nat, n: nat)
    ensures Shr(Xor(a, b), n) == Xor(Shr(a, n), Shr(b, n))
    decreases n
  {
    if n > 0 {
      XorParts(a, b);
      hide Xor;
      XorShifts(a / 2, b / 2, n - 1);
    }
  }

  lemma {:induction false} ShrBelow(a: nat, m: nat, n: nat)
    requires a < Pow2(m + n)
    ensures Shr(a, m) < Pow2(n)
    decreases m
  {
    if m > 0 {
      ShrBelow(a / 2, m - 1, n);
    }
  }

  lemma {:induction false} ShrOfBelow(a: nat, n: nat)
    requires a < Pow2(n)
    ensures Shr(a, n) == 0
    decreases n
  {
    if n > 0 {
      ShrOfBelow(a / 2, n - 1);
    }
  }

  // ---- each multiplication is by an odd constant, so it can be undone

  lemma ModOf(m: int, x: u64)
    ensures (m * TWO64 + x) % TWO64 == x
  {
  }

  lemma UndoPrime(x: u64)
    ensures Scale(Scale(x, PRIME), 0x96de1b173f119089) == x
  {
    var q := (x * PRIME) / TWO64;
    assert Scale(x, PRIME) * 0x96de1b173f119089 == (x * 0x70c3bca78f27f46c - q * 0x96de1b173f119089) * TWO64 + x;
    ModOf(x * 0x70c3bca78f27f46c - q * 0x96de1b173f119089, x);
  }

  lemma UndoMix1(x: u64)
    ensures Scale(Scale(x, MIX1), 0x4f74430c22a54005) == x
  {
    var q := (x * MIX1) / TWO64;
    assert Scale(x, MIX1) * 0x4f74430c22a54005 == (x * 0x4f3e2925cb7c5b4e - q * 0x4f74430c22a54005) * TWO64 + x;
    ModOf(x * 0x4f3e2925cb7c5b4e - q * 0x4f74430c22a54005, x);
  }

  lemma UndoMix2(x: u64)
    ensures Scale(Scale(x, MIX2), 0x9cb4b2f8129337db) == x
  {
    var q := (x * MIX2) / TWO64;
    assert Scale(x, MIX2) * 0x9cb4b2f8129337db == (x * 0x7878e44812b2d581 - q * 0x9cb4b2f8129337db) * TWO64 + x;
    ModOf(x * 0x7878e44812b2d581 - q * 0x9cb4b2f8129337db, x);
  }

  lemma ScaleInjective(x: u64, y: u64, c: u64)
    requires c == PRIME || c == MIX1 || c == MIX2
    requires Scale(x, c) == Scale(y, c)
    ensures x == y
  {
    UndoPrime(x);
    UndoPrime(y);
    UndoMix1(x);
    UndoMix1(y);
    UndoMix2(x);
    UndoMix2(y);
    hide Scale;
  }

  // ---- the hash

  function Xor64(a: u64, b: u64): u64 {
    XorWithin(a, b);
    Xor(a, b)
  }

  lemma XorWithin(a: u64, b: u64)
    ensures Xor(a, b) < TWO64
  {
    PowOf64();
    XorBelow(a, b, 64);
  }

  function Absorb(h: u64, b: byte): u64 {
    Scale(Xor64(h, Value(b)), PRIME)
  }

  function AbsorbAll(h: u64, data: seq<byte>): u64
    decreases |data|
  {
    if data == [] then h else AbsorbAll(Absorb(h, data[0]), data[1..])
  }

  lemma ShrShrinks(h: u64)
    ensures Shr(h, 33) < TWO64 && Shr(Shr(h, 33), 33) == 0
  {
    PowOf64();
    ShrBelow(h, 33, 31);
    PowMonotone(31, 33);
    PowMonotone(31, 64);
    ShrOfBelow(Shr(h, 33), 33);
  }

  lemma {:induction false} PowMonotone(m: nat, n: nat)
    requires m <= n
    ensures Pow2(m) <= Pow2(n)
    decreases n
  {
    if m < n {
      PowMonotone(m, n - 1);
    }
  }

  function Fold(h: u64): u64 {
    ShrShrinks(h);
    Xor64(h, Shr(h, 33))
  }

  function Mix(h: u64): u64 {
    Fold(Scale(Fold(Scale(Fold(h), MIX1)), MIX2))
  }

  function Hash(data: seq<byte>): u64 {
    Mix(AbsorbAll(SEED, data))
  }

  // ---- every step of the hash is a bijection modulo 2^64

  /** Folding twice is the identity: 33 + 33 bits are more than a word. */
  lemma FoldTwice(h: u64)
    ensures Fold(Fold(h)) == h
  {
    hide Xor, Shr;
    ShrShrinks(h);
    var t := Shr(h, 33);
    XorShifts(h, t, 33);
    XorZero(t);
    XorUndoes(h, t);
  }

  lemma MixInjective(x: u64, y: u64)
    requires Mix(x) == Mix(y)
    ensures x == y
  {
    hide Fold, Scale;
    FoldTwice(Scale(Fold(Scale(Fold(x), MIX1)), MIX2));
    FoldTwice(Scale(Fold(Scale(Fold(y), MIX1)), MIX2));
    ScaleInjective(Fold(Scale(Fold(x), MIX1)), Fold(Scale(Fold(y), MIX1)), MIX2);
    FoldTwice(Scale(Fold(x), MIX1));
    FoldTwice(Scale(Fold(y), MIX1));
    ScaleInjective(Fold(x), Fold(y), MIX1);
    FoldTwice(x);
    FoldTwice(y);
  }

  lemma AbsorbInjective(h: u64, g: u64, a: byte, b: byte)
    requires Absorb(h, a) == Absorb(g, b)
    ensures h == g ==> a == b
    ensures a == b ==> h == g
  {
    hide Xor, Scale, Value;
    ScaleInjective(Xor64(h, Value(a)), Xor64(g, Value(b)), PRIME);
    XorCancels(h, g, Value(a), Value(b));
    ValueInjective(a, b);
  }

  lemma XorCancels(h: u64, g: u64, a: u64, b: u64)
    requires Xor64(h, a) == Xor64(g, b)
    ensures h == g <==> a == b
  {
    hide Xor;
    XorUndoes(h, a);
    XorUndoes(g, b);
    XorCommutes(h, a);
    XorCommutes(g, b);
    XorUndoes(a, h);
    XorUndoes(b, g);
  }

  lemma {:induction false} AbsorbAllInjective(h: u64, g: u64, data: seq<byte>)
    requires AbsorbAll(h, data) == AbsorbAll(g, data)
    ensures h == g
    decreases |data|
  {
    hide Absorb;
    if data != [] {
      AbsorbAllInjective(Absorb(h, data[0]), Absorb(g, data[0]), data[1..]);
      AbsorbInjective(h, g, data[0], data[0]);
    }
  }

  lemma {:induction false} AbsorbSplits(h: u64, a: seq<byte>, b: seq<byte>)
    ensures AbsorbAll(h, a + b) == AbsorbAll(AbsorbAll(h, a), b)
    decreases |a|
  {
    hide Absorb;
    if a == [] {
      assert a + b == b;
    } else {
      assert (a + b)[1..] == a[1..] + b;
      AbsorbSplits(Absorb(h, a[0]), a[1..], b);
    }
  }

  lemma OneMore(front: seq<byte>, x: byte, back: seq<byte>)
    ensures AbsorbAll(SEED, front + [x] + back) == AbsorbAll(Absorb(AbsorbAll(SEED, front), x), back)
  {
    hide Absorb;
    AbsorbSplits(SEED, front + [x], back);
    AbsorbSplits(SEED, front, [x]);
    assert [x][1..] == [];
    assert AbsorbAll(AbsorbAll(SEED, front), [x]) == AbsorbAll(Absorb(AbsorbAll(SEED, front), x), []);
  }

  /** Two blocks of equal length that differ in exactly one byte have different hashes. */
  lemma OneByteSeparates(a: seq<byte>, b: seq<byte>, i: nat)
    requires |a| == |b| && i < |a| && a[i] != b[i]
    requires forall k :: 0 <= k < |a| && k != i ==> a[k] == b[k]
    ensures Hash(a) != Hash(b)
  {
    hide Absorb, Mix;
    var front, back := a[..i], a[i + 1..];
    assert a == front + [a[i]] + back && b == front + [b[i]] + back;
    var h := AbsorbAll(SEED, front);
    OneMore(front, a[i], back);
    OneMore(front, b[i], back);
    if Hash(a) == Hash(b) {
      MixInjective(AbsorbAll(SEED, a), AbsorbAll(SEED, b));
      AbsorbAllInjective(Absorb(h, a[i]), Absorb(h, b[i]), back);
      AbsorbInjective(h, h, a[i], b[i]);
    }
  }

  method Compute(data: seq<byte>) returns (h: u64)
    ensures h == Hash(data)
  {
    hide Absorb, Mix;
    h := SEED;
    assert data[..0] == [] && data[..|data|] == data;
    for i := 0 to |data|
      invariant h == AbsorbAll(SEED, data[..i])
    {
      OneMore(data[..i], data[i], []);
      assert data[..i] + [data[i]] + [] == data[..i + 1];
      h := Absorb(h, data[i]);
    }
    h := Mix(h);
  }
}
