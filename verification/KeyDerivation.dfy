/** The iterated key derivation of `core/src/masterkey.rs`, and how it relates to PBKDF2. */
module KeyDerivation {
  import opened Bytes
  import opened Primitives
  import opened Mac

  /** A keyed pseudorandom function with the output length of its hash module. */
  datatype PrfBase = PrfBase(isSha512: bool, out: bytes -> bytes) {
    ghost predicate Valid() {
      forall m: bytes :: |out(m)| == DigestLen(isSha512)
    }

    function Len(): nat {
      DigestLen(isSha512)
    }
  }

  type Prf = f: PrfBase | f.Valid() ghost witness PrfBase(false, (m: bytes) => Zeros(20))

  function Of(prf: Prf, m: bytes): (d: bytes)
    ensures |d| == prf.Len()
  {
    prf.out(m)
  }

  /** HMAC under a fixed key. */
  function HmacPrf(p: Primitives, isSha512: bool, pass: bytes): (prf: Prf)
    ensures prf.isSha512 == isSha512
    ensures forall m: bytes {:trigger Of(prf, m)} :: Of(prf, m) == Hmac(p, isSha512, pass, m)
  {
    PrfBase(isSha512, (m: bytes) => Hmac(p, isSha512, pass, m))
  }

  /** The accumulator after `n` rounds of `d ^= prf(d)`. */
  function Chain(prf: Prf, u1: bytes, n: nat): (d: bytes)
    requires |u1| == prf.Len()
    ensures |d| == |u1|
  {
    if n == 0 then u1
    else
      var d := Chain(prf, u1, n - 1);
      XorBytes(d, Of(prf, d))
  }

  /** `count.saturating_sub(1)`. */
  function Rounds(count: u32): nat {
    if count == 0 then 0 else count - 1
  }

  /** The block counter, a 32-bit word that starts at 1. */
  function Counter(j: nat): u32 {
    (j + 1) % 0x1_0000_0000
  }

  function NextCounter(i: u32): u32 {
    if i == 0xFFFF_FFFF then 0 else i + 1
  }

  lemma CounterSteps(j: nat)
    ensures Counter(j + 1) == NextCounter(Counter(j))
  {
  }

  /** The first output of block `j`. */
  function FirstOutput(prf: Prf, salt: bytes, j: nat): (u: bytes)
    ensures |u| == prf.Len()
  {
    Of(prf, salt + Be32(Counter(j)))
  }

  function Block(prf: Prf, salt: bytes, count: u32, j: nat): (b: bytes)
    ensures |b| == prf.Len()
  {
    Chain(prf, FirstOutput(prf, salt, j), Rounds(count))
  }

  /** The length of `n` digests. */
  function DigestsLen(prf: Prf, n: nat): nat {
    if prf.isSha512 then 64 * n else 20 * n
  }

  /** The first `n` blocks. */
  function Blocks(prf: Prf, salt: bytes, count: u32, n: nat): (b: bytes)
    ensures |b| == DigestsLen(prf, n)
  {
    if n == 0 then []
    else Blocks(prf, salt, count, n - 1) + Block(prf, salt, count, n - 1)
  }

  /** How many digests cover `keyLen` bytes. */
  function BlocksFor(prf: Prf, keyLen: nat): (n: nat)
    ensures DigestsLen(prf, n) >= keyLen
    ensures n > 0 ==> DigestsLen(prf, n - 1) < keyLen
  {
    if prf.isSha512 then (keyLen + 63) / 64 else (keyLen + 19) / 20
  }

  function DerivedKey(prf: Prf, salt: bytes, keyLen: nat, count: u32): (key: bytes)
    ensures |key| == keyLen
  {
    Blocks(prf, salt, count, BlocksFor(prf, keyLen))[..keyLen]
  }

  /** `for (d, a) in derived.iter_mut().zip(actual)`: the loop stops with the shorter of the two. */
  method XorZip(derived: bytes, actual: bytes) returns (r: bytes)
    ensures |r| == |derived|
    ensures |actual| == |derived| ==> r == XorBytes(derived, actual)
    ensures forall j :: 0 <= j < |derived| ==>
              r[j] == if j < |actual| then Xor(derived[j], actual[j]) else derived[j]
  {
    r := derived;
    var j := 0;
    while j < |derived| && j < |actual|
      invariant 0 <= j <= |derived| == |r| && j <= |actual|
      invariant forall k :: 0 <= k < j ==> r[k] == Xor(derived[k], actual[k])
      invariant forall k :: j <= k < |derived| ==> r[k] == derived[k]
    {
      r := r[j := Xor(derived[j], actual[j])];
      j := j + 1;
    }
  }

  /** One block: the first output from salt and counter, then `count - 1` rounds. */
  method DeriveBlock(p: Primitives, isSha512: bool, pass: bytes, salt: bytes, i: u32, count: u32, ghost j: nat)
    returns (derived: bytes)
    requires i == Counter(j)
    ensures derived == Block(HmacPrf(p, isSha512, pass), salt, count, j)
  {
    ghost var prf := HmacPrf(p, isSha512, pass);
    var u := salt + Be32(i);
    derived := Hmac(p, isSha512, pass, u);
    ghost var u1 := Of(prf, u);
    for k := 0 to Rounds(count)
      invariant derived == Chain(prf, u1, k)
    {
      ghost var d := derived;
      var actual := Hmac(p, isSha512, pass, derived);
      assert actual == Of(prf, d);
      derived := XorZip(derived, actual);
    }
  }

  /** The nested loop. It ends because every block adds a digest, and the zip never truncates. */
  method DeriveKey(p: Primitives, isSha512: bool, pass: bytes, salt: bytes, keyLen: nat, count: u32)
    returns (keyMaterial: bytes)
    ensures keyMaterial == DerivedKey(HmacPrf(p, isSha512, pass), salt, keyLen, count)
  {
    ghost var prf := HmacPrf(p, isSha512, pass);
    keyMaterial := [];
    var i: u32 := 1;
    ghost var n := 0;
    while |keyMaterial| < keyLen
      invariant keyMaterial == Blocks(prf, salt, count, n)
      invariant i == Counter(n)
      invariant n > 0 ==> DigestsLen(prf, n - 1) < keyLen
      decreases keyLen - |keyMaterial|
    {
      var derived := DeriveBlock(p, isSha512, pass, salt, i, count, n);
      CounterSteps(n);
      i := NextCounter(i);
      keyMaterial := keyMaterial + derived;
      n := n + 1;
    }
    BlocksForUnique(prf, keyLen, n);
    keyMaterial := keyMaterial[..keyLen];
  }

  lemma BlocksForUnique(prf: Prf, keyLen: nat, n: nat)
    requires DigestsLen(prf, n) >= keyLen
    requires n > 0 ==> DigestsLen(prf, n - 1) < keyLen
    ensures n == BlocksFor(prf, keyLen)
  {
  }

  lemma {:induction false} BlocksExtend(prf: Prf, salt: bytes, count: u32,
                                        n: nat, m: nat)
    requires n <= m
    ensures Blocks(prf, salt, count, n) <= Blocks(prf, salt, count, m)
  {
    if n < m {
      BlocksExtend(prf, salt, count, n, m - 1);
    }
  }

  lemma BlocksForMonotone(prf: Prf, n: nat, m: nat)
    requires n <= m
    ensures BlocksFor(prf, n) <= BlocksFor(prf, m)
  {
  }

  /** A shorter key is a prefix of a longer one: the cipher key does not depend on the IV length. */
  lemma DerivedKeyPrefix(prf: Prf, salt: bytes, count: u32, n: nat, m: nat)
    requires n <= m
    ensures DerivedKey(prf, salt, n, count) == DerivedKey(prf, salt, m, count)[..n]
  {
    BlocksForMonotone(prf, n, m);
    BlocksExtend(prf, salt, count, BlocksFor(prf, n), BlocksFor(prf, m));
  }

  /** Every whole digest inside the key is the block of its own index alone. */
  lemma DerivedKeyAt(prf: Prf, salt: bytes, count: u32, m: nat, j: nat)
    requires DigestsLen(prf, j + 1) <= m
    ensures DerivedKey(prf, salt, m, count)[DigestsLen(prf, j)..DigestsLen(prf, j + 1)] == Block(prf, salt, count, j)
  {
    var lo, hi := DigestsLen(prf, j), DigestsLen(prf, j + 1);
    var key := DerivedKey(prf, salt, m, count);
    DerivedKeyPrefix(prf, salt, count, hi, m);
    assert BlocksFor(prf, hi) == j + 1;
    assert key[..hi] == Blocks(prf, salt, count, j) + Block(prf, salt, count, j);
    assert key[lo..hi] == key[..hi][lo..];
  }

  // ---------- PBKDF2, section 5.2 of RFC 8018 ----------

  /** `INT (i)`: four bytes, the most significant first. */
  function Int4(i: u32): (b: bytes)
    ensures |b| == 4
  {
    [i / 0x100_0000, i / 0x1_0000 % 256, i / 0x100 % 256, i % 256]
  }

  /** `U_1` of the block with this index. */
  function PbkdfFirst(prf: Prf, salt: bytes, i: u32): (u: bytes)
    ensures |u| == prf.Len()
  {
    Of(prf, salt + Int4(i))
  }

  lemma FirstOutputExact(prf: Prf, salt: bytes, j: nat)
    ensures FirstOutput(prf, salt, j) == PbkdfFirst(prf, salt, (j + 1) % 0x1_0000_0000)
  {
    BeDigits(Counter(j));
  }

  /** `U_(k+1)`. */
  function PbkdfOutput(prf: Prf, u1: bytes, k: nat): (u: bytes)
    requires |u1| == prf.Len()
    ensures |u| == |u1|
  {
    if k == 0 then u1 else Of(prf, PbkdfOutput(prf, u1, k - 1))
  }

  /** `U_1 ^ ... ^ U_(n+1)`. */
  function PbkdfSum(prf: Prf, u1: bytes, n: nat): (t: bytes)
    requires |u1| == prf.Len()
    ensures |t| == |u1|
  {
    if n == 0 then u1
    else XorBytes(PbkdfSum(prf, u1, n - 1), PbkdfOutput(prf, u1, n))
  }

  function PbkdfBlocks(prf: Prf, salt: bytes, count: u32, n: nat): (b: bytes)
    ensures |b| == DigestsLen(prf, n)
  {
    if n == 0 then []
    else
      PbkdfBlocks(prf, salt, count, n - 1) +
      PbkdfSum(prf, PbkdfFirst(prf, salt, n % 0x1_0000_0000), if count == 0 then 0 else count - 1)
  }

  function Pbkdf2(prf: Prf, salt: bytes, keyLen: nat, count: u32): (key: bytes)
    ensures |key| == keyLen
  {
    PbkdfBlocks(prf, salt, count, BlocksFor(prf, keyLen))[..keyLen]
  }

  /** The exclusive or of a start value and a list of digests. */
  function XorSum(start: bytes, terms: seq<bytes>): (r: bytes)
    requires forall k :: 0 <= k < |terms| ==> |terms[k]| == |start|
    ensures |r| == |start|
  {
    if terms == [] then start else XorBytes(XorSum(start, terms[..|terms| - 1]), terms[|terms| - 1])
  }

  /** The PRF of every accumulator before round `n`. */
  function Increments(prf: Prf, u1: bytes, n: nat): (ts: seq<bytes>)
    requires |u1| == prf.Len()
    ensures |ts| == n
    ensures forall k :: 0 <= k < n ==> |ts[k]| == |u1| && ts[k] == Of(prf, Chain(prf, u1, k))
  {
    if n == 0 then [] else Increments(prf, u1, n - 1) + [Of(prf, Chain(prf, u1, n - 1))]
  }

  /** A block telescopes to its first output plus the PRF of each running accumulator. */
  lemma {:induction false} ChainTelescopes(prf: Prf, u1: bytes, n: nat)
    requires |u1| == prf.Len()
    ensures Chain(prf, u1, n) == XorSum(u1, Increments(prf, u1, n))
  {
    if n > 0 {
      ChainTelescopes(prf, u1, n - 1);
      var ts := Increments(prf, u1, n);
      assert ts[..n - 1] == Increments(prf, u1, n - 1);
    }
  }

  /**
   Every whole digest inside the key depends on its own index alone: it is `U_1`, the PRF of the
   salt and the big-endian index counted from 1, plus the PRF of each of `count - 1` accumulators.
   */
  lemma DerivedKeyBlock(prf: Prf, salt: bytes, count: u32, m: nat, j: nat)
    requires DigestsLen(prf, j + 1) <= m
    ensures var i := (j + 1) % 0x1_0000_0000;
            var u1 := Of(prf, salt + [i / 0x100_0000, i / 0x1_0000 % 256, i / 0x100 % 256, i % 256]);
            DerivedKey(prf, salt, m, count)[DigestsLen(prf, j)..DigestsLen(prf, j + 1)] ==
            XorSum(u1, Increments(prf, u1, if count == 0 then 0 else count - 1))
  {
    hide DerivedKey;
    DerivedKeyAt(prf, salt, count, m, j);
    FirstOutputExact(prf, salt, j);
    ChainTelescopes(prf, FirstOutput(prf, salt, j), Rounds(count));
  }

  /** With at most two iterations, and 0 counting as 1, the derivation is PBKDF2 for every PRF. */
  lemma EqualsPbkdf2UpToTwo(prf: Prf, salt: bytes, keyLen: nat, count: u32)
    requires count <= 2
    ensures DerivedKey(prf, salt, keyLen, count) == Pbkdf2(prf, salt, keyLen, count)
  {
    BlocksEqual(prf, salt, count, BlocksFor(prf, keyLen));
  }

  lemma {:induction false} BlocksEqual(prf: Prf, salt: bytes, count: u32, n: nat)
    requires count <= 2
    ensures Blocks(prf, salt, count, n) == PbkdfBlocks(prf, salt, count, n)
  {
    if n > 0 {
      BlocksEqual(prf, salt, count, n - 1);
      var u1 := FirstOutput(prf, salt, n - 1);
      FirstOutputExact(prf, salt, n - 1);
      assert Rounds(count) <= 1;
      assert Chain(prf, u1, 0) == PbkdfSum(prf, u1, 0) == PbkdfOutput(prf, u1, 0);
      assert Chain(prf, u1, 1) == PbkdfSum(prf, u1, 1);
    }
  }

  /** At three iterations a block is the one of PBKDF2 exactly when the PRF does not tell `U1 ^ U2` from `U2`. */
  lemma ThreeIterationsExact(prf: Prf, u1: bytes)
    requires |u1| == prf.Len()
    ensures var u2 := Of(prf, u1);
            Chain(prf, u1, 2) == PbkdfSum(prf, u1, 2) <==>
            Of(prf, XorBytes(u1, u2)) == Of(prf, u2)
  {
    var u2 := Of(prf, u1);
    var d2 := XorBytes(u1, u2);
    assert Chain(prf, u1, 0) == PbkdfSum(prf, u1, 0) == PbkdfOutput(prf, u1, 0);
    assert Chain(prf, u1, 1) == d2 == PbkdfSum(prf, u1, 1);
    assert PbkdfOutput(prf, u1, 1) == u2;
    var a, b := Of(prf, d2), Of(prf, u2);
    assert Chain(prf, u1, 2) == XorBytes(d2, a);
    assert PbkdfSum(prf, u1, 2) == XorBytes(d2, b);
    XorBytesCommutes(d2, a);
    XorBytesCommutes(d2, b);
    XorBytesUndone(a, d2);
    XorBytesUndone(b, d2);
  }

  lemma XorBytesCommutes(a: bytes, b: bytes)
    requires |a| == |b|
    ensures XorBytes(a, b) == XorBytes(b, a)
  {
    forall i | 0 <= i < |a|
      ensures XorBytes(a, b)[i] == XorBytes(b, a)[i]
    {
      BitXorCommutes(a[i], b[i]);
    }
  }

  // ---------- From three iterations on ----------

  /** A PRF that keeps `u1` and swaps zeros and `v` leads the accumulator to `v`, where it stays. */
  lemma {:induction false} ChainSettles(prf: Prf, u1: bytes, v: bytes, n: nat)
    requires |u1| == |v| == prf.Len() && n >= 2
    requires Of(prf, u1) == u1 && Of(prf, Zeros(|u1|)) == v && Of(prf, v) == Zeros(|u1|)
    ensures Chain(prf, u1, n) == v
  {
    if n == 2 {
      XorBytesSelf(u1);
      XorBytesSelf(v);
      assert Chain(prf, u1, 0) == u1;
      assert Chain(prf, u1, 1) == Zeros(|u1|);
    } else {
      ChainSettles(prf, u1, v, n - 1);
      XorBytesSelf(v);
      XorBytesCommutes(v, Zeros(|v|));
    }
  }

  /** Under a PRF that keeps `u1` the sum of PBKDF2 alternates between `u1` and zeros. */
  lemma {:induction false} SumAlternates(prf: Prf, u1: bytes, n: nat)
    requires |u1| == prf.Len() && Of(prf, u1) == u1
    ensures PbkdfOutput(prf, u1, n) == u1
    ensures PbkdfSum(prf, u1, n) == if n % 2 == 0 then u1 else Zeros(|u1|)
  {
    if n > 0 {
      SumAlternates(prf, u1, n - 1);
      XorBytesSelf(u1);
    }
  }

  /** The first byte of a key is the first byte of its first block. */
  lemma {:induction false} FirstBytes(prf: Prf, salt: bytes, count: u32, n: nat)
    requires n > 0
    ensures Blocks(prf, salt, count, n)[0] == Block(prf, salt, count, 0)[0]
    ensures PbkdfBlocks(prf, salt, count, n)[0] == PbkdfSum(prf, FirstOutput(prf, salt, 0), Rounds(count))[0]
  {
    FirstOutputExact(prf, salt, 0);
    if n == 1 {
      assert Blocks(prf, salt, count, 0) == [] == PbkdfBlocks(prf, salt, count, 0);
    } else {
      FirstBytes(prf, salt, count, n - 1);
    }
  }

  /** One, and zeros behind it. */
  function OneThenZeros(n: nat): (r: bytes)
    requires n > 0
    ensures |r| == n
  {
    [1] + Zeros(n - 1)
  }

  /** Such a PRF separates the two derivations in the first byte, whatever the key length. */
  lemma SwappingPrfDiffers(prf: Prf, salt: bytes, keyLen: nat, count: u32)
    requires count >= 3 && keyLen > 0
    requires var u1 := FirstOutput(prf, salt, 0);
             var v := OneThenZeros(|u1|);
             u1[0] == 0 && Of(prf, u1) == u1 && Of(prf, Zeros(|u1|)) == v && Of(prf, v) == Zeros(|u1|)
    ensures DerivedKey(prf, salt, keyLen, count) != Pbkdf2(prf, salt, keyLen, count)
  {
    var u1 := FirstOutput(prf, salt, 0);
    ChainSettles(prf, u1, OneThenZeros(|u1|), Rounds(count));
    SumAlternates(prf, u1, Rounds(count));
    FirstBytes(prf, salt, count, BlocksFor(prf, keyLen));
    assert DerivedKey(prf, salt, keyLen, count)[0] == 1;
    assert Pbkdf2(prf, salt, keyLen, count)[0] == 0;
  }

  /** Exchanges zeros and `OneThenZeros`. */
  function SwapZeros(d: bytes): (r: bytes)
    requires |d| > 0
    ensures |r| == |d|
  {
    if d == Zeros(|d|) then OneThenZeros(|d|)
    else if d == OneThenZeros(|d|) then Zeros(|d|)
    else d
  }

  /** The toy hash, with the exchange behind an inner pad only. */
  function SwapHash(m: bytes, block: nat, digest: nat): (d: bytes)
    requires digest > 0
    ensures |d| == digest
  {
    var t := ToyHash(m, block, digest);
    if m != [] && m[0] == 0x36 then SwapZeros(t) else t
  }

  function SwapSuite(): (s: Suite)
    ensures s.Valid()
  {
    ToySuite().(sha1 := (m: bytes) => SwapHash(m, 64, 20), sha512 := (m: bytes) => SwapHash(m, 128, 64))
  }

  lemma SwapDigest(p: Primitives, isSha512: bool, pad: bytes, msg: bytes)
    requires p == SwapSuite() && |pad| == HashBlockLen(isSha512) && |msg| == DigestLen(isSha512)
    ensures Digest(p, isSha512, pad + msg) == if pad[0] == 0x36 then SwapZeros(msg) else msg
  {
    var m := pad + msg;
    assert m[|pad|..] == msg && m[0] == pad[0];
    assert Digest(p, isSha512, m) == SwapHash(m, |pad|, |msg|);
  }

  /** Under an empty key the HMAC of a digest is the exchange. */
  lemma SwapHmac(p: Primitives, isSha512: bool, msg: bytes)
    requires p == SwapSuite() && |msg| == DigestLen(isSha512)
    ensures Hmac(p, isSha512, [], msg) == SwapZeros(msg)
  {
    var inner, outer := InnerPad(p, isSha512, []), OuterPad(p, isSha512, []);
    BitXorCancels(0x36);
    BitXorCancels(0x5c);
    assert PadKey(p, isSha512, [])[0] == 0;
    assert inner[0] == 0x36 && outer[0] == 0x5c;
    SwapDigest(p, isSha512, inner, msg);
    SwapDigest(p, isSha512, outer, SwapZeros(msg));
  }

  /** A salt of zeros with the counter behind it fills a digest and is neither zeros nor their counterpart. */
  lemma SaltAndCounter(n: nat)
    requires n >= 20
    ensures var u := Zeros(n - 4) + Be32(1);
            |u| == n && u[0] == 0 && SwapZeros(u) == u
    ensures SwapZeros(Zeros(n)) == OneThenZeros(n) && SwapZeros(OneThenZeros(n)) == Zeros(n)
  {
    var u := Zeros(n - 4) + Be32(1);
    assert Le(1, 4)[0] == 1;
    assert u[n - 1] == 1 && u[0] == 0 && OneThenZeros(n)[0] == 1 && Zeros(n)[0] == 0;
    assert u != Zeros(n) && u != OneThenZeros(n);
  }

  /** HMAC over some hash functions separates the two derivations from three iterations on. */
  lemma HmacDiffers(p: Primitives, isSha512: bool, keyLen: nat, count: u32)
    requires p == SwapSuite() && count >= 3 && keyLen > 0
    ensures var prf, salt := HmacPrf(p, isSha512, []), Zeros(DigestLen(isSha512) - 4);
            DerivedKey(prf, salt, keyLen, count) != Pbkdf2(prf, salt, keyLen, count)
  {
    hide Hmac, SwapSuite, SwapZeros, Be32, OneThenZeros, DerivedKey, Pbkdf2;
    var n := DigestLen(isSha512);
    var prf, salt := HmacPrf(p, isSha512, []), Zeros(n - 4);
    SaltAndCounter(n);
    assert FirstOutput(prf, salt, 0) == Of(prf, salt + Be32(1));
    SwapHmac(p, isSha512, salt + Be32(1));
    SwapHmac(p, isSha512, Zeros(n));
    SwapHmac(p, isSha512, OneThenZeros(n));
    SwappingPrfDiffers(prf, salt, keyLen, count);
  }

  /**
   The derivation is PBKDF2-HMAC, for all hash functions, passwords and salts, exactly when at most
   two iterations are asked for or no byte at all; this holds for both hash modules.
   */
  lemma Pbkdf2Exact(isSha512: bool, keyLen: nat, count: u32)
    ensures (forall p: Primitives, pass: bytes, salt: bytes ::
               DerivedKey(HmacPrf(p, isSha512, pass), salt, keyLen, count) ==
               Pbkdf2(HmacPrf(p, isSha512, pass), salt, keyLen, count)) <==>
            count <= 2 || keyLen == 0
  {
    if count <= 2 {
      forall p: Primitives, pass: bytes, salt: bytes
        ensures DerivedKey(HmacPrf(p, isSha512, pass), salt, keyLen, count) ==
                Pbkdf2(HmacPrf(p, isSha512, pass), salt, keyLen, count)
      {
        EqualsPbkdf2UpToTwo(HmacPrf(p, isSha512, pass), salt, keyLen, count);
      }
    } else if keyLen > 0 {
      HmacDiffers(SwapSuite(), isSha512, keyLen, count);
    }
  }
}
