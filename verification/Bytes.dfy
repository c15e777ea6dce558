/** Bytes, bitwise exclusive or, and little- and big-endian numbers. */
module Bytes {

  type byte = x: nat | x < 256
  type bytes = seq<byte>
  type u16 = x: nat | x < 0x1_0000
  type u32 = x: nat | x < 0x1_0000_0000
  type u64 = x: nat | x < 0x1_0000_0000_0000_0000

  function Pow2(k: nat): (r: nat)
    ensures r > 0
  {
    if k == 0 then 1 else 2 * Pow2(k - 1)
  }

  function Pow256(k: nat): (r: nat)
    ensures r > 0
  {
    if k == 0 then 1 else 256 * Pow256(k - 1)
  }

  /** Exclusive or of two numbers, binary digit by binary digit. */
  function BitXor(a: nat, b: nat): nat {
    if a == 0 && b == 0 then 0 else 2 * BitXor(a / 2, b / 2) + if a % 2 == b % 2 then 0 else 1
  }

  /** The binary digit of `n` that counts `2^i`. */
  function Bit(n: nat, i: nat): nat {
    if i == 0 then n % 2 else Bit(n / 2, i - 1)
  }

  /** A digit of the exclusive or is set exactly when it is set in one of the two numbers. */
  lemma {:induction false} BitOfXor(a: nat, b: nat, i: nat)
    ensures Bit(BitXor(a, b), i) == if Bit(a, i) == Bit(b, i) then 0 else 1
  {
    if i == 0 {
      assert BitXor(a, b) % 2 == if a % 2 == b % 2 then 0 else 1;
    } else {
      BitXorHalves(a, b);
      BitOfXor(a / 2, b / 2, i - 1);
    }
  }

  lemma {:induction false} BitXorHalves(a: nat, b: nat)
    ensures BitXor(a, b) / 2 == BitXor(a / 2, b / 2)
  {
  }

  lemma {:induction false} BitXorBound(a: nat, b: nat, k: nat)
    requires a < Pow2(k) && b < Pow2(k)
    ensures BitXor(a, b) < Pow2(k)
  {
    if k > 0 {
      BitXorBound(a / 2, b / 2, k - 1);
      BitXorHalves(a, b);
    }
  }

  lemma {:induction false} BitXorAssociates(a: nat, b: nat, c: nat)
    ensures BitXor(BitXor(a, b), c) == BitXor(a, BitXor(b, c))
    decreases a + b + c
  {
    if a + b + c > 0 {
      BitXorAssociates(a / 2, b / 2, c / 2);
      var l := BitXor(BitXor(a, b), c);
      var r := BitXor(a, BitXor(b, c));
      assert l / 2 == r / 2 by {
        BitXorHalves(a, b);
        BitXorHalves(b, c);
        BitXorHalves(BitXor(a, b), c);
        BitXorHalves(a, BitXor(b, c));
      }
      assert l % 2 == r % 2;
      assert l == 2 * (l / 2) + l % 2 && r == 2 * (r / 2) + r % 2;
    }
  }

  lemma {:induction false} BitXorCancels(a: nat)
    ensures BitXor(a, a) == 0 && BitXor(a, 0) == a && BitXor(0, a) == a
  {
    if a > 0 {
      BitXorCancels(a / 2);
    }
  }

  lemma {:induction false} BitXorCommutes(a: nat, b: nat)
    ensures BitXor(a, b) == BitXor(b, a)
    decreases a + b
  {
    if a + b > 0 {
      BitXorCommutes(a / 2, b / 2);
    }
  }

  function Xor(a: byte, b: byte): byte {
    assert Pow2(8) == 256;
    BitXorBound(a, b, 8);
    BitXor(a, b)
  }

  function XorBytes(a: bytes, b: bytes): (r: bytes)
    requires |a| == |b|
    ensures |r| == |a|
  {
    seq(|a|, i requires 0 <= i < |a| => Xor(a[i], b[i]))
  }

  function XorConst(a: bytes, c: byte): (r: bytes)
    ensures |r| == |a|
  {
    seq(|a|, i requires 0 <= i < |a| => Xor(a[i], c))
  }

  lemma XorUndone(a: byte, b: byte)
    ensures Xor(Xor(a, b), b) == a
  {
    BitXorAssociates(a, b, b);
    BitXorCancels(b);
    BitXorCancels(a);
  }

  /** Adding the same bytes twice gives the first operand back. */
  lemma XorBytesUndone(a: bytes, b: bytes)
    requires |a| == |b|
    ensures XorBytes(XorBytes(a, b), b) == a
  {
    forall i | 0 <= i < |a|
      ensures XorBytes(XorBytes(a, b), b)[i] == a[i]
    {
      XorUndone(a[i], b[i]);
    }
  }

  lemma XorBytesSelf(a: bytes)
    ensures XorBytes(a, a) == Zeros(|a|)
    ensures XorBytes(Zeros(|a|), a) == a
  {
    forall i | 0 <= i < |a|
      ensures XorBytes(a, a)[i] == 0
      ensures XorBytes(Zeros(|a|), a)[i] == a[i]
    {
      BitXorCancels(a[i]);
    }
  }

  function Zeros(n: nat): (r: bytes)
    ensures |r| == n
  {
    seq(n, _ => 0)
  }

  /** `Vec::resize` with a zero fill: cut or extend to exactly `n` bytes. */
  function Resize(s: bytes, n: nat): (r: bytes)
    ensures |r| == n
  {
    if |s| >= n then s[..n] else s + Zeros(n - |s|)
  }

  /** `n` as `k` little-endian bytes. */
  function Le(n: nat, k: nat): (r: bytes)
    ensures |r| == k
  {
    if k == 0 then [] else [n % 256] + Le(n / 256, k - 1)
  }

  function FromLe(s: bytes): nat {
    if s == [] then 0 else s[0] + 256 * FromLe(s[1..])
  }

  lemma {:induction false} LeOfFromLe(s: bytes)
    ensures FromLe(s) < Pow256(|s|)
    ensures Le(FromLe(s), |s|) == s
  {
    if s != [] {
      LeOfFromLe(s[1..]);
    }
  }

  lemma {:induction false} FromLeOfLe(n: nat, k: nat)
    requires n < Pow256(k)
    ensures FromLe(Le(n, k)) == n
  {
    if k > 0 {
      FromLeOfLe(n / 256, k - 1);
    }
  }

  /** The second part of a little-endian number counts from where the first ends. */
  lemma {:induction false} FromLeAppends(a: bytes, b: bytes)
    ensures FromLe(a + b) == FromLe(a) + Pow256(|a|) * FromLe(b)
  {
    if a == [] {
      assert a + b == b;
    } else {
      assert (a + b)[1..] == a[1..] + b;
      FromLeAppends(a[1..], b);
      TimesAssociates(256, Pow256(|a| - 1), FromLe(b));
    }
  }

  lemma TimesAssociates(a: nat, b: nat, c: nat)
    ensures a * (b * c) == (a * b) * c
  {
  }

  function Reverse(s: bytes): (r: bytes)
    ensures |r| == |s|
    ensures forall i :: 0 <= i < |s| ==> r[i] == s[|s| - 1 - i]
  {
    if s == [] then [] else Reverse(s[1..]) + [s[0]]
  }

  /** `u32::to_be_bytes`. */
  function Be32(n: u32): (r: bytes)
    ensures |r| == 4
  {
    Reverse(Le(n, 4))
  }

  /** The least significant byte of a stored number comes first. */
  lemma LeDigits(n: u32)
    ensures Le(n, 4) == [n % 256, n / 0x100 % 256, n / 0x1_0000 % 256, n / 0x100_0000]
  {
    var a, b, c := n / 256, n / 256 / 256, n / 256 / 256 / 256;
    assert Le(c, 1) == [c % 256] + Le(c / 256, 0);
    assert Le(b, 2) == [b % 256] + Le(c, 1);
    assert Le(a, 3) == [a % 256] + Le(b, 2);
    assert Le(n, 4) == [n % 256] + Le(a, 3);
    assert b == n / 0x1_0000 && c == n / 0x100_0000;
  }

  /** A 64-bit number is stored as its lower half, then its upper half. */
  lemma LeHalves(n: u64)
    ensures Le(n, 8) == Le(n % 0x1_0000_0000, 4) + Le(n / 0x1_0000_0000, 4)
  {
    LeSplits(n % 0x1_0000_0000, n / 0x1_0000_0000, 4, 4);
    assert Pow256(4) == 0x1_0000_0000;
    assert n == n % 0x1_0000_0000 + 0x1_0000_0000 * (n / 0x1_0000_0000);
  }

  lemma LeSplits(lo: nat, hi: nat, j: nat, k: nat)
    requires lo < Pow256(j) && hi < Pow256(k)
    ensures Le(lo + Pow256(j) * hi, j + k) == Le(lo, j) + Le(hi, k)
  {
    var s := Le(lo, j) + Le(hi, k);
    FromLeAppends(Le(lo, j), Le(hi, k));
    FromLeOfLe(lo, j);
    FromLeOfLe(hi, k);
    LeOfFromLe(s);
  }

  /** The most significant byte comes first. */
  lemma BeDigits(n: u32)
    ensures Be32(n) == [n / 0x100_0000, n / 0x1_0000 % 256, n / 0x100 % 256, n % 256]
  {
    LeDigits(n);
  }

  lemma Associates(a: bytes, b: bytes, c: bytes)
    ensures (a + b) + c == a + (b + c)
  {
  }
}
