/** HMAC as in section 2 of RFC 2104. */
module Mac {
  import opened Bytes
  import opened Primitives

  /** The key, hashed when it is longer than a block, then zero-padded to a block. */
  function PadKey(p: Primitives, isSha512: bool, key: bytes): (k: bytes)
    ensures |k| == HashBlockLen(isSha512)
  {
    var short := if |key| > HashBlockLen(isSha512) then Digest(p, isSha512, key) else key;
    short + Zeros(HashBlockLen(isSha512) - |short|)
  }

  function InnerPad(p: Primitives, isSha512: bool, key: bytes): bytes {
    XorConst(PadKey(p, isSha512, key), 0x36)
  }

  function OuterPad(p: Primitives, isSha512: bool, key: bytes): bytes {
    XorConst(PadKey(p, isSha512, key), 0x5c)
  }

  function Hmac(p: Primitives, isSha512: bool, key: bytes, msg: bytes): (d: bytes)
    ensures |d| == DigestLen(isSha512)
  {
    Digest(p, isSha512,
           OuterPad(p, isSha512, key) + Digest(p, isSha512, InnerPad(p, isSha512, key) + msg))
  }

  /**
   HMAC in full: the key, hashed when it is longer than a block, is filled with zeros to one block
   and added to 0x36 and 0x5c; the digest under the outer pad is of the digest under the inner one.
   */
  lemma HmacLayout(p: Primitives, isSha512: bool, key: bytes, msg: bytes)
    ensures var block := if isSha512 then 128 else 64;
            var i, o := InnerPad(p, isSha512, key), OuterPad(p, isSha512, key);
            var k := if |key| <= block then key else if isSha512 then p.sha512(key) else p.sha1(key);
            && |i| == |o| == block
            && (forall j :: 0 <= j < block ==> i[j] == Xor(if j < |k| then k[j] else 0, 0x36))
            && (forall j :: 0 <= j < block ==> o[j] == Xor(if j < |k| then k[j] else 0, 0x5c))
            && Hmac(p, isSha512, key, msg) ==
               if isSha512 then p.sha512(o + p.sha512(i + msg)) else p.sha1(o + p.sha1(i + msg))
  {
  }
}
