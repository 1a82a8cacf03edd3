/** Machine words and bytes shared by every component. */
module Words {
  const TWO64: int := 0x1_0000_0000_0000_0000
  const TWO32: int := 0x1_0000_0000

  type byte = bv8
  type u64 = x: int | 0 <= x < TWO64
  type u32 = x: int | 0 <= x < TWO32

  datatype Option<+T> = None | Some(value: T)

  /** Unsigned subtraction, which wraps. */
  function Less(x: u64, y: u64): u64 {
    (x - y) % TWO64
  }

  /** Removing a part of a wrapped sum gives the wrapped rest. */
  lemma WrapSub(a: int, b: int)
    ensures (a % TWO64 - b) % TWO64 == (a - b) % TWO64
  {
  }

  lemma WrapAdd(a: int, b: int)
    ensures (a % TWO64 + b) % TWO64 == (a + b) % TWO64
  {
  }
}

/** Byte memory: the value written by a store, and the store itself. */
module Memory {
  import opened Words

  function WriteAt(ram: seq<byte>, p: nat, bs: seq<byte>): (r: seq<byte>)
    requires p + |bs| <= |ram|
    ensures |r| == |ram|
    ensures forall k :: 0 <= k < |ram| && !(p <= k < p + |bs|) ==> r[k] == ram[k]
    ensures forall k :: p <= k < p + |bs| ==> r[k] == bs[k - p]
  {
    ram[..p] + bs + ram[p + |bs|..]
  }

  lemma WriteAtUnique(ram: seq<byte>, p: nat, bs: seq<byte>, r: seq<byte>)
    requires p + |bs| <= |ram| == |r|
    requires forall k :: 0 <= k < |ram| && !(p <= k < p + |bs|) ==> r[k] == ram[k]
    requires forall k :: 0 <= k < |bs| ==> r[p + k] == bs[k]
    ensures r == WriteAt(ram, p, bs)
  {
    var w := WriteAt(ram, p, bs);
    forall k | 0 <= k < |ram|
      ensures r[k] == w[k]
    {
      if p <= k < p + |bs| {
        assert r[p + (k - p)] == bs[k - p];
      }
    }
  }

  lemma WriteAtJoin(ram: seq<byte>, p: nat, a: seq<byte>, b: seq<byte>)
    requires p + |a| + |b| <= |ram|
    ensures WriteAt(WriteAt(ram, p, a), p + |a|, b) == WriteAt(ram, p, a + b)
  {
    WriteAtUnique(ram, p, a + b, WriteAt(WriteAt(ram, p, a), p + |a|, b));
  }

  method StoreBytes(ram: array<byte>, p: nat, bs: seq<byte>)
    requires p + |bs| <= ram.Length
    modifies ram
    ensures ram[..] == WriteAt(old(ram[..]), p, bs)
  {
    for i := 0 to |bs|
      invariant forall k :: 0 <= k < ram.Length && !(p <= k < p + i) ==> ram[k] == old(ram[k])
      invariant forall k :: 0 <= k < i ==> ram[p + k] == bs[k]
    {
      ram[p + i] := bs[i];
    }
    WriteAtUnique(old(ram[..]), p, bs, ram[..]);
  }

  /** The eight little-endian bytes of a 64-bit word. */
  function Le64(x: bv64): (r: seq<byte>)
    ensures |r| == 8
  {
    [(x & 0xff) as bv8, ((x >> 8) & 0xff) as bv8, ((x >> 16) & 0xff) as bv8, ((x >> 24) & 0xff) as bv8,
     ((x >> 32) & 0xff) as bv8, ((x >> 40) & 0xff) as bv8, ((x >> 48) & 0xff) as bv8, ((x >> 56) & 0xff) as bv8]
  }
}

/** Powers of two. */
module Powers {
  import opened Words

  function Pow2(n: nat): (r: nat)
    ensures r > 0
  {
    if n == 0 then 1 else 2 * Pow2(n - 1)
  }

  lemma MulAssoc(a: int, b: int, c: int)
    ensures (a * b) * c == a * (b * c)
  {
  }

  lemma {:induction false} PowAdd(m: nat, n: nat)
    ensures Pow2(m + n) == Pow2(m) * Pow2(n)
  {
    if m > 0 {
      PowAdd(m - 1, n);
      MulAssoc(2, Pow2(m - 1), Pow2(n));
    }
  }

  lemma PowOf64()
    ensures Pow2(7) == 128 && Pow2(64) == TWO64
  {
    assert Pow2(4) == 16;
    PowAdd(4, 4);
    PowAdd(8, 8);
    PowAdd(16, 16);
    PowAdd(32, 32);
  }
}

/** Numbers as little-endian bytes. */
module LittleEndian {
  import opened Words

  function Value(b: byte): (v: nat)
    ensures v < 256
  {
    b as nat
  }

  /** The byte with a given value. */
  function ByteOf(x: nat): (b: byte)
    requires x < 256
    ensures Value(b) == x
  {
    assert Value(255) == 255;
    AtMost(x, 255)
  }

  function AtMost(x: nat, b: byte): (r: byte)
    requires x <= Value(b)
    ensures Value(r) == x
    decreases Value(b)
  {
    if Value(b) == x then b
    else
      ValueOfPredecessor(b);
      AtMost(x, b - 1)
  }

  lemma ValueOfPredecessor(b: byte)
    requires Value(b) > 0
    ensures Value(b - 1) == Value(b) - 1
  {
  }

  lemma ValueBack(b: byte)
    ensures Value(b) as bv8 == b
  {
  }

  lemma ValueInjective(a: byte, b: byte)
    ensures Value(a) == Value(b) ==> a == b
  {
    ValueBack(a);
    ValueBack(b);
    hide Value;
  }

  /** The low n bytes of x, least significant first. */
  function Encode(x: nat, n: nat): (r: seq<byte>)
    ensures |r| == n
    decreases n
  {
    if n == 0 then [] else [ByteOf(x % 256)] + Encode(x / 256, n - 1)
  }

  function Decode(bytes: seq<byte>): nat {
    if bytes == [] then 0 else Value(bytes[0]) + 256 * Decode(bytes[1..])
  }

  function Bound(n: nat): (r: nat)
    ensures r > 0
  {
    if n == 0 then 1 else 256 * Bound(n - 1)
  }

  lemma {:induction false} DecodeEncode(x: nat, n: nat)
    requires x < Bound(n)
    ensures Decode(Encode(x, n)) == x
    decreases n
  {
    if n > 0 {
      DecodeEncode(x / 256, n - 1);
      hide Value, ByteOf;
      assert Encode(x, n)[1..] == Encode(x / 256, n - 1);
    }
  }

  lemma {:induction false} DecodeBelow(bytes: seq<byte>)
    ensures Decode(bytes) < Bound(|bytes|)
  {
    if bytes != [] {
      DecodeBelow(bytes[1..]);
    }
  }

  lemma Bounds()
    ensures Bound(4) == TWO32 && Bound(8) == TWO64
  {
    assert Bound(1) == 256;
    assert Bound(2) == 0x1_0000;
    assert Bound(3) == 0x100_0000;
    assert Bound(4) == TWO32;
    assert Bound(5) == 256 * TWO32;
    assert Bound(6) == 0x1_0000 * TWO32;
    assert Bound(7) == 0x100_0000 * TWO32;
  }
}

/** Sequences used as ordered collections without repetition. */
module Sequences {

  ghost predicate NoDup<T>(s: seq<T>) {
    forall i, j :: 0 <= i < j < |s| ==> s[i] != s[j]
  }

  lemma NoDupConcat<T>(a: seq<T>, b: seq<T>)
    requires NoDup(a) && NoDup(b) && forall x :: x in a ==> x !in b
    ensures NoDup(a + b)
  {
    forall i, j | 0 <= i < j < |a + b|
      ensures (a + b)[i] != (a + b)[j]
    {
      if i < |a| <= j {
        assert a[i] in a && b[j - |a|] in b;
      }
    }
  }

  lemma SubSlice<T>(s: seq<T>, a: nat, n: nat, k: nat, m: nat)
    requires a + n <= |s| && k + m <= n
    ensures s[a..a + n][k..k + m] == s[a + k..a + k + m]
  {
    var t := s[a..a + n];
    var u, v := t[k..k + m], s[a + k..a + k + m];
    forall i | 0 <= i < m
      ensures u[i] == v[i]
    {
      assert t[k + i] == s[a + k + i];
    }
  }

  lemma Associative<T>(a: seq<T>, b: seq<T>, c: seq<T>)
    ensures (a + b) + c == a + (b + c)
  {
  }

  /** s without the first occurrence of x. */
  ghost function Without<T>(s: seq<T>, x: T): (r: seq<T>)
    ensures x !in s ==> r == s
    ensures forall y :: y in r ==> y in s
    ensures forall y :: y in s && y != x ==> y in r
  {
    if s == [] then []
    else if s[0] == x then s[1..]
    else [s[0]] + Without(s[1..], x)
  }

  lemma {:induction false} WithoutAt<T>(s: seq<T>, i: nat)
    requires i < |s| && NoDup(s)
    ensures Without(s, s[i]) == s[..i] + s[i + 1..]
    ensures NoDup(Without(s, s[i])) && s[i] !in Without(s, s[i])
  {
    if i > 0 {
      assert s[0] != s[i];
      WithoutAt(s[1..], i - 1);
      assert s[1..][..i - 1] == s[1..i] && s[1..][i..] == s[i + 1..];
      assert [s[0]] + s[1..i] == s[..i];
    }
  }

  lemma WithoutKeepsNoDup<T>(s: seq<T>, x: T)
    requires NoDup(s)
    ensures NoDup(Without(s, x)) && x !in Without(s, x)
  {
    if x in s {
      var i :| 0 <= i < |s| && s[i] == x;
      WithoutAt(s, i);
    }
  }

  /** The elements of s that belong to keep, in their order. */
  ghost function Restrict<T>(s: seq<T>, keep: seq<T>): (r: seq<T>)
    ensures forall y :: y in r ==> y in s && y in keep
    ensures forall y :: y in s && y in keep ==> y in r
  {
    if s == [] then []
    else if s[0] in keep then [s[0]] + Restrict(s[1..], keep)
    else Restrict(s[1..], keep)
  }

  lemma {:induction false} RestrictAll<T>(s: seq<T>, keep: seq<T>)
    requires forall y :: y in s ==> y in keep
    ensures Restrict(s, keep) == s
  {
    if s != [] {
      RestrictAll(s[1..], keep);
    }
  }

  /** Removing what is not kept first makes no difference. */
  lemma {:induction false} RestrictWithout<T>(s: seq<T>, keep: seq<T>, x: T)
    requires x !in keep
    ensures Restrict(Without(s, x), keep) == Restrict(s, keep)
  {
    if s != [] && s[0] != x {
      RestrictWithout(s[1..], keep, x);
    }
  }
}
