/** Little-endian base 128 numbers, the variable-length encoding of packed relocations. */
module Leb128 {
  import opened Words
  import opened LittleEndian
  import opened Powers

  const LONGEST: nat := 10
  const TWO63: int := 0x8000_0000_0000_0000

  // ---- the parts of a byte

  predicate More(b: byte) {
    Value(b) >= 128
  }

  function Low(b: byte): (v: nat)
    ensures v < 128
  {
    Value(b) % 128
  }

  // ---- 64-bit words as numbers

  function Or(a: nat, b: nat): nat
    decreases a + b
  {
    if a == 0 && b == 0 then 0 else OrBit(a % 2, b % 2) + 2 * Or(a / 2, b / 2)
  }

  function OrBit(a: nat, b: nat): nat {
    if a == 0 && b == 0 then 0 else 1
  }

  /** x shifted left in a 64-bit word. */
  function Shl(x: nat, shift: nat): u64 {
    (x * Pow2(shift)) % TWO64
  }

  /** Ones from a bit position up: the negation of that power in a 64-bit word. */
  function SignBits(shift: nat): u64 {
    (0 - Pow2(shift)) % TWO64
  }

  function Signed(x: u64): int {
    if x < TWO63 then x else x - TWO64
  }

  /** Setting bits above those of a word adds them. */
  lemma {:induction false} OrAdds(a: nat, b: nat, s: nat)
    requires a < Pow2(s)
    ensures Or(a, b * Pow2(s)) == a + b * Pow2(s)
    decreases s
  {
    if s == 0 {
      OrZero(b);
    } else {
      OrAdds(a / 2, b, s - 1);
      var c := b * Pow2(s - 1);
      assert b * Pow2(s) == 2 * c by { MulAssoc(2, b, Pow2(s - 1)); MulAssoc(b, 2, Pow2(s - 1)); }
      OrOfEven(a, c);
    }
  }

  lemma OrOfEven(a: nat, c: nat)
    ensures Or(a, 2 * c) == a % 2 + 2 * Or(a / 2, c)
  {
    assert (2 * c) % 2 == 0 && (2 * c) / 2 == c;
    if a == 0 && c == 0 {
      assert Or(0, 0) == 0;
    }
  }

  lemma {:induction false} OrZero(b: nat)
    ensures Or(0, b) == b
  {
    if b > 0 {
      OrZero(b / 2);
    }
  }

  // ---- what a string of groups stands for

  /** The length of the number at the front: up to the first byte without the top bit. */
  function Length(s: seq<byte>): (n: nat)
    ensures n <= |s|
  {
    if s == [] then 0 else if More(s[0]) then 1 + Length(s[1..]) else 1
  }

  /** Some byte ends the number. */
  predicate Ends(s: seq<byte>) {
    s != [] && (More(s[0]) ==> Ends(s[1..]))
  }

  function Unsigned(s: seq<byte>): nat {
    if s == [] then 0 else Low(s[0]) + 128 * Unsigned(s[1..])
  }

  /** The top group counts as negative if its bit 6 is set. */
  function SignedOf(s: seq<byte>): int {
    if s == [] then 0
    else if |s| == 1 then (if Low(s[0]) >= 64 then Low(s[0]) - 128 else Low(s[0]))
    else Low(s[0]) + 128 * SignedOf(s[1..])
  }

  lemma {:induction false} UnsignedSplits(a: seq<byte>, b: seq<byte>)
    ensures Unsigned(a + b) == Unsigned(a) + Pow2(7 * |a|) * Unsigned(b)
  {
    if a == [] {
      assert a + b == b;
    } else {
      assert (a + b)[1..] == a[1..] + b;
      UnsignedSplits(a[1..], b);
      PowOf64();
      PowAdd(7, 7 * (|a| - 1));
      MulAssoc(128, Pow2(7 * (|a| - 1)), Unsigned(b));
    }
  }

  lemma {:induction false} UnsignedBelow(s: seq<byte>)
    ensures Unsigned(s) < Pow2(7 * |s|)
  {
    if s != [] {
      UnsignedBelow(s[1..]);
      PowOf64();
      PowAdd(7, 7 * (|s| - 1));
    }
  }

  lemma {:induction false} SignedIs(s: seq<byte>)
    requires s != []
    ensures SignedOf(s) == Unsigned(s) - if Low(s[|s| - 1]) >= 64 then Pow2(7 * |s|) else 0
  {
    PowOf64();
    if |s| == 1 {
      assert s[1..] == [];
    } else {
      SignedIs(s[1..]);
      PowAdd(7, 7 * (|s| - 1));
    }
  }

  // ---- one group more

  lemma Multiple(k: int, m: int)
    requires m >= 0
    ensures k >= 1 ==> k * m >= m
    ensures k <= -1 ==> k * m <= -m
  {
  }

  lemma Distribute(d: int, e: int, m: int)
    ensures (d - e) * m == d * m - e * m
  {
  }

  lemma ModUnique(x: int, d: int, m: nat, r: int)
    requires 0 <= r < m && x == d * m + r
    ensures x % m == r
  {
    var e := x / m;
    assert x == e * m + x % m;
    Distribute(d, e, m);
    Multiple(d - e, m);
  }

  /** What is above the word falls off. */
  lemma TopFallsOff(result: nat, low: nat, p: nat, q: nat)
    requires result < p && p * q == TWO64 && q > 0
    ensures var t := low % q;
            && result + t * p < TWO64 && (low * p) % TWO64 == t * p && (result + low * p) % TWO64 == result + t * p
  {
    var d, t := low / q, low % q;
    assert low * p == d * TWO64 + t * p by {
      assert low == d * q + t;
      Distribute(d * q, -t, p);
      MulAssoc(d, q, p);
    }
    assert t * p + p <= TWO64 by {
      Distribute(q, t, p);
      Multiple(q - t, p);
    }
    var x, y := low * p, t * p;
    ModUnique(x, d, TWO64, y);
    ModUnique(result + x, d, TWO64, result + y);
  }

  /** Or-ing in the i-th group adds it, modulo 2^64. */
  lemma GroupAdds(result: nat, low: nat, i: nat)
    requires i < LONGEST && result < Pow2(7 * i)
    ensures Or(result, Shl(low, 7 * i)) == (result + low * Pow2(7 * i)) % TWO64
  {
    hide Pow2, Or;
    var s := 7 * i;
    PowOf64();
    PowAdd(s, 64 - s);
    TopFallsOff(result, low, Pow2(s), Pow2(64 - s));
    OrAdds(result, low % Pow2(64 - s), s);
  }

  /** Or-ing in the sign bits subtracts the power above the top group. */
  lemma SignSubtracts(result: nat, n: nat)
    requires 0 < n < LONGEST && result < Pow2(7 * n)
    ensures Pow2(7 * n) <= TWO63
    ensures Or(result, SignBits(7 * n)) == result + TWO64 - Pow2(7 * n)
  {
    var s := 7 * n;
    WordSplits(s);
    OrAdds(result, Pow2(64 - s) - 1, s);
    SignBitsAre(s);
    hide *;
    Distribute(Pow2(64 - s), 1, Pow2(s));
    SumsUp(result, Pow2(s), (Pow2(64 - s) - 1) * Pow2(s));
  }

  lemma SumsUp(result: int, p: int, top: int)
    requires top == TWO64 - 1 * p
    ensures result + top == result + TWO64 - p
  {
  }

  /** A word of 64 bits splits into s low bits and the rest. */
  lemma WordSplits(s: nat)
    requires s < 64
    ensures Pow2(64 - s) * Pow2(s) == TWO64 && Pow2(s) <= TWO63
  {
    assert Pow2(1) == 2;
    hide Pow2;
    PowOf64();
    PowAdd(64 - s, s);
    PowAdd(s, 64 - s);
    PowAdd(1, 63 - s);
    HalfFits(Pow2(s), Pow2(63 - s));
  }

  lemma SignBitsAre(s: nat)
    requires Pow2(s) <= TWO64
    ensures Pow2(s) < TWO64 ==> SignBits(s) == TWO64 - Pow2(s)
  {
  }

  lemma HalfFits(p: nat, half: nat)
    requires p * (2 * half) == TWO64 && half > 0
    ensures p <= TWO63
  {
    Multiple(half, p);
    MulAssoc(p, 2, half);
    MulAssoc(2, p, half);
  }

  lemma SignedBack(x: int)
    requires -TWO63 <= x < TWO63
    ensures Signed(x % TWO64) == x
  {
  }

  // ---- the decoders

  /** The number at p can be read: it ends within ten bytes. */
  predicate Readable(s: seq<byte>) {
    Ends(s) && Length(s) <= LONGEST
  }

  /** The i bytes already read all say that more follow. */
  ghost predicate Reading(s: seq<byte>, i: nat) {
    Readable(s) && i < Length(s) && forall k :: 0 <= k < i ==> More(s[k])
  }

  lemma {:induction false} LengthAt(s: seq<byte>, i: nat)
    requires Ends(s) && i < |s| && forall k :: 0 <= k < i ==> More(s[k])
    ensures if More(s[i]) then i + 1 < Length(s) else Length(s) == i + 1
  {
    hide More;
    if i > 0 {
      assert More(s[0]);
      LengthAt(s[1..], i - 1);
    } else if More(s[0]) {
      assert Ends(s[1..]);
    }
  }

  lemma OneGroupMore(s: seq<byte>, i: nat)
    requires i < |s|
    ensures Unsigned(s[..i + 1]) == Unsigned(s[..i]) + Low(s[i]) * Pow2(7 * i)
  {
    assert s[..i + 1] == s[..i] + [s[i]];
    OneGroup(s[i]);
    UnsignedSplits(s[..i], [s[i]]);
    var a, last := s[..i], [s[i]];
    hide *;
    assert |a| == i;
    Commute(Pow2(7 * i), Low(s[i]));
  }

  lemma Commute(a: int, b: int)
    ensures a * b == b * a
  {
  }

  lemma OneGroup(b: byte)
    ensures Unsigned([b]) == Low(b)
  {
    assert [b][1..] == [];
  }

  /** The loop body on numbers: the i-th group joins those before it. */
  lemma GroupJoins(s: seq<byte>, i: nat, result: u64)
    requires i < LONGEST && i < |s| && result == Unsigned(s[..i]) % TWO64
    ensures var r := Or(result, Shl(Low(s[i]), 7 * i)); r < TWO64 && r == Unsigned(s[..i + 1]) % TWO64
  {
    hide Low, Or, Shl, Unsigned;
    UnsignedBelow(s[..i]);
    GroupsFit(i);
    OneGroupMore(s, i);
    GroupAdds(result, Low(s[i]), i);
  }

  /** Nine groups or fewer fit a word. */
  lemma GroupsFit(i: nat)
    requires i < LONGEST
    ensures Pow2(7 * i) <= TWO63
  {
    PowOf64();
    PowAdd(7 * i, 63 - 7 * i);
    PowAdd(63, 1);
    assert Pow2(1) == 2;
    hide Pow2;
    Multiple(Pow2(63 - 7 * i), Pow2(7 * i));
    MulAssoc(Pow2(63 - 7 * i), Pow2(7 * i), 1);
  }

  method DecodeUnsigned(ram: array<byte>, p: nat) returns (value: u64, q: nat)
    requires p <= ram.Length && Readable(ram[p..])
    ensures q == p + Length(ram[p..]) <= ram.Length && value == Unsigned(ram[p..q]) % TWO64
  {
    ghost var s := ram[p..];
    ghost var i := 0;
    value, q := 0, p;
    var shift := 0;
    NothingRead(s);
    hide *;
    while true
      invariant Reading(s, i) && q == p + i && shift == 7 * i && s == ram[p..]
      invariant value == Unsigned(s[..i]) % TWO64
      decreases |s| - i
    {
      InReach(s, i);
      var b := ram[q];
      assert b == s[i];
      GroupJoins(s, i, value);
      value := Or(value, Shl(Low(b), shift));
      q, shift, i := q + 1, shift + 7, i + 1;
      if !More(b) {
        assert s[..i] == ram[p..q];
        return;
      }
    }
  }

  method DecodeSigned(ram: array<byte>, p: nat) returns (value: int, q: nat)
    requires p <= ram.Length && Readable(ram[p..])
    ensures q == p + Length(ram[p..]) <= ram.Length && value == Signed(SignedOf(ram[p..q]) % TWO64)
  {
    ghost var s := ram[p..];
    ghost var i := 0;
    q := p;
    var result: u64, shift := 0, 0;
    var b: byte := 0;
    NothingRead(s);
    hide *;
    while true
      invariant Reading(s, i) && q == p + i && shift == 7 * i && s == ram[p..]
      invariant result == Unsigned(s[..i]) % TWO64
      decreases |s| - i
    {
      InReach(s, i);
      b := ram[q];
      assert b == s[i];
      GroupJoins(s, i, result);
      result := Or(result, Shl(Low(b), shift));
      q, shift, i := q + 1, shift + 7, i + 1;
      if !More(b) {
        break;
      }
    }
    assert s[..i] == ram[p..q];
    SignExtends(ram[p..q], result);
    if shift < 64 && Low(b) >= 64 {
      result := Or(result, SignBits(shift));
    }
    value := Signed(result);
  }

  lemma NothingRead(s: seq<byte>)
    requires Readable(s)
    ensures Reading(s, 0) && Unsigned(s[..0]) % TWO64 == 0
  {
    assert s[..0] == [];
  }

  /** The byte at hand is in the encoding: the last one, or one with another behind it. */
  lemma InReach(s: seq<byte>, i: nat)
    requires Reading(s, i)
    ensures i < LONGEST && i < Length(s) <= |s|
    ensures if More(s[i]) then Reading(s, i + 1) else Length(s) == i + 1 <= LONGEST
  {
    LengthAt(s, i);
  }

  lemma SignExtends(s: seq<byte>, result: u64)
    requires 0 < |s| <= LONGEST && result == Unsigned(s) % TWO64
    ensures if 7 * |s| < 64 && Low(s[|s| - 1]) >= 64
            then Or(result, SignBits(7 * |s|)) < TWO64 && Signed(Or(result, SignBits(7 * |s|))) == Signed(SignedOf(s) % TWO64)
            else Signed(result) == Signed(SignedOf(s) % TWO64)
  {
    UnsignedBelow(s);
    SignedIs(s);
    SeventyBits();
    var n, u, negative := |s|, Unsigned(s), Low(s[|s| - 1]) >= 64;
    hide Low, Or, Unsigned, SignedOf, Pow2, SignBits, Signed;
    if n < LONGEST {
      SignOfWord(u, n, negative);
    } else if negative {
      WholeTurns(u);
    }
  }

  /** Below ten groups the sign is put in above the groups read. */
  lemma SignOfWord(u: nat, n: nat, negative: bool)
    requires 0 < n < LONGEST && u < Pow2(7 * n)
    ensures u % TWO64 == u
    ensures negative ==> Or(u, SignBits(7 * n)) == u + TWO64 - Pow2(7 * n) == (u - Pow2(7 * n)) % TWO64 && Or(u, SignBits(7 * n)) < TWO64
  {
    GroupsFit(n);
    if negative {
      SignSubtracts(u, n);
      hide *;
      Borrow(u, Pow2(7 * n));
    }
  }

  lemma Borrow(x: u64, p: nat)
    requires x < p <= TWO63
    ensures x + TWO64 - p < TWO64 && (x - p) % TWO64 == x + TWO64 - p
  {
  }

  lemma WholeTurns(x: nat)
    ensures (x - 64 * TWO64) % TWO64 == x % TWO64
  {
    ModUnique(x - 64 * TWO64, x / TWO64 - 64, TWO64, x % TWO64);
  }

  lemma SeventyBits()
    ensures Pow2(7 * LONGEST) == 64 * TWO64
  {
    PowOf64();
    PowAdd(64, 6);
    assert Pow2(6) == 64;
  }

  // ---- the canonical encodings

  /** The byte with seven data bits, and the top bit if more follow. */
  function Group(low: nat, more: bool): (b: byte)
    requires low < 128
    ensures Low(b) == low && (More(b) <==> more)
  {
    ByteOf(if more then low + 128 else low)
  }

  function EncodeUnsigned(x: nat): (s: seq<byte>)
    ensures s != []
  {
    if x < 128 then [Group(x, false)] else [Group(x % 128, true)] + EncodeUnsigned(x / 128)
  }

  function EncodeSigned(x: int): (s: seq<byte>)
    ensures s != []
    decreases if x < 0 then -x else x
  {
    if -64 <= x < 64 then [Group(x % 128, false)] else [Group(x % 128, true)] + EncodeSigned(x / 128)
  }

  lemma {:induction false} UnsignedReadsBack(x: nat, rest: seq<byte>)
    ensures var s := EncodeUnsigned(x) + rest; Ends(s) && Length(s) == |EncodeUnsigned(x)|
    ensures Unsigned(EncodeUnsigned(x)) == x
  {
    hide Low, More, Group;
    var e := EncodeUnsigned(x);
    if x < 128 {
      assert (e + rest)[0] == e[0] && e[1..] == [];
    } else {
      UnsignedReadsBack(x / 128, rest);
      assert e[1..] == EncodeUnsigned(x / 128);
      assert (e + rest)[1..] == EncodeUnsigned(x / 128) + rest;
    }
  }

  lemma {:induction false} SignedReadsBack(x: int, rest: seq<byte>)
    ensures var s := EncodeSigned(x) + rest; Ends(s) && Length(s) == |EncodeSigned(x)|
    ensures SignedOf(EncodeSigned(x)) == x
    decreases if x < 0 then -x else x
  {
    hide Low, More, Group;
    var e := EncodeSigned(x);
    if -64 <= x < 64 {
      assert (e + rest)[0] == e[0];
    } else {
      SignedReadsBack(x / 128, rest);
      assert e[1..] == EncodeSigned(x / 128);
      assert (e + rest)[1..] == EncodeSigned(x / 128) + rest;
    }
  }

  lemma {:induction false} UnsignedLength(x: nat, n: nat)
    requires n > 0 && x < Pow2(7 * n)
    ensures |EncodeUnsigned(x)| <= n
    decreases n
  {
    PowOf64();
    if x >= 128 {
      PowAdd(7, 7 * (n - 1));
      UnsignedLength(x / 128, n - 1);
    }
  }

  lemma {:induction false} SignedLength(x: int, n: nat)
    requires n > 0 && 0 - Pow2(7 * n) <= 2 * x < Pow2(7 * n)
    ensures |EncodeSigned(x)| <= n
    decreases n
  {
    PowOf64();
    if !(-64 <= x < 64) {
      PowAdd(7, 7 * (n - 1));
      assert n > 1;
      PowAdd(7, 7 * (n - 2));
      SignedLength(x / 128, n - 1);
    }
  }

  /** An encoded 64-bit number in front of anything decodes to itself and takes exactly its own bytes. */
  lemma UnsignedRoundTrip(x: u64, rest: seq<byte>)
    ensures var s := EncodeUnsigned(x) + rest;
            && Readable(s) && Length(s) == |EncodeUnsigned(x)| && Unsigned(s[..Length(s)]) % TWO64 == x
  {
    hide Ends, Length, EncodeUnsigned, Unsigned, Pow2;
    UnsignedReadsBack(x, rest);
    SeventyBits();
    UnsignedLength(x, LONGEST);
    var s := EncodeUnsigned(x) + rest;
    assert s[..|EncodeUnsigned(x)|] == EncodeUnsigned(x);
  }

  lemma SignedRoundTrip(x: int, rest: seq<byte>)
    requires -TWO63 <= x < TWO63
    ensures var s := EncodeSigned(x) + rest;
            && Readable(s) && Length(s) == |EncodeSigned(x)| && Signed(SignedOf(s[..Length(s)]) % TWO64) == x
  {
    hide Ends, Length, EncodeSigned, SignedOf, Signed, Pow2;
    SignedReadsBack(x, rest);
    SeventyBits();
    SignedLength(x, LONGEST);
    SignedBack(x);
    var s := EncodeSigned(x) + rest;
    assert s[..|EncodeSigned(x)|] == EncodeSigned(x);
  }
}
