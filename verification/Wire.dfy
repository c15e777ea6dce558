/**
 The wire level shared by every parser.

 The parsers of `core/src` walk a mutable cursor over the input and read numbers with a
 `read_u32` that yields 0 beyond the end. Their specifications cut fields off the front of
 the remaining bytes and never read beyond the end. `ReadU32` and `ReadLenPrefixed` relate the two.
 */
module Wire {
  import opened Bytes
  import opened Results

  /** A length-prefixed field: its length fits the 4-byte prefix. */
  type field = b: bytes | |b| < 0x1_0000_0000
  type guid = b: bytes | |b| == 16 witness Zeros(16)

  function Le32(n: u32): (r: bytes)
    ensures |r| == 4
  {
    Le(n, 4)
  }

  function Le64(n: u64): (r: bytes)
    ensures |r| == 8
  {
    Le(n, 8)
  }

  /** A 4-byte length followed by the bytes. */
  function Prefixed(b: field): bytes {
    Le32(|b|) + b
  }

  function TakeBytes(s: bytes, k: nat): (r: Result<(bytes, bytes)>)
    ensures r.Ok? <==> k <= |s|
    ensures r.Ok? ==> s == r.value.0 + r.value.1 && |r.value.0| == k
    ensures r.Err? ==> r == Err(TooShort)
  {
    if |s| < k then Err(TooShort) else Ok((s[..k], s[k..]))
  }

  function TakeU32(s: bytes): (r: Result<(u32, bytes)>)
    ensures r.Ok? <==> 4 <= |s|
    ensures r.Ok? ==> s == Le32(r.value.0) + r.value.1
    ensures r.Err? ==> r == Err(TooShort)
  {
    if |s| < 4 then Err(TooShort)
    else
      LeOfFromLe(s[..4]);
      assert Pow256(4) == 0x1_0000_0000;
      Ok((FromLe(s[..4]), s[4..]))
  }

  function TakeU64(s: bytes): (r: Result<(u64, bytes)>)
    ensures r.Ok? <==> 8 <= |s|
    ensures r.Ok? ==> s == Le64(r.value.0) + r.value.1
    ensures r.Err? ==> r == Err(TooShort)
  {
    if |s| < 8 then Err(TooShort)
    else
      LeOfFromLe(s[..8]);
      assert Pow256(8) == 0x1_0000_0000_0000_0000;
      Ok((FromLe(s[..8]), s[8..]))
  }

  function TakePrefixed(s: bytes): (r: Result<(field, bytes)>)
    ensures r.Ok? ==> s == Prefixed(r.value.0) + r.value.1
    ensures r.Err? ==> r == Err(TooShort)
  {
    var (n, s) :- TakeU32(s);
    TakeBytes(s, n)
  }

  lemma TakeBytesPut(b: bytes, t: bytes)
    ensures TakeBytes(b + t, |b|) == Ok((b, t))
  {
    assert (b + t)[..|b|] == b;
    assert (b + t)[|b|..] == t;
  }

  lemma TakeBytesAt(data: bytes, pos: nat, k: nat)
    requires pos + k <= |data|
    ensures TakeBytes(data[pos..], k) == Ok((data[pos..pos + k], data[pos + k..]))
  {
    assert data[pos..][..k] == data[pos..pos + k];
    assert data[pos..][k..] == data[pos + k..];
  }

  lemma TakeU32Put(n: u32, t: bytes)
    ensures TakeU32(Le32(n) + t) == Ok((n, t))
  {
    assert Pow256(4) == 0x1_0000_0000;
    FromLeOfLe(n, 4);
    assert (Le32(n) + t)[..4] == Le32(n);
    assert (Le32(n) + t)[4..] == t;
  }

  lemma TakeU64Put(n: u64, t: bytes)
    ensures TakeU64(Le64(n) + t) == Ok((n, t))
  {
    assert Pow256(8) == 0x1_0000_0000_0000_0000;
    FromLeOfLe(n, 8);
    assert (Le64(n) + t)[..8] == Le64(n);
    assert (Le64(n) + t)[8..] == t;
  }

  lemma TakePrefixedPut(b: field, t: bytes)
    ensures TakePrefixed(Prefixed(b) + t) == Ok((b, t))
  {
    assert Prefixed(b) + t == Le32(|b|) + (b + t);
    TakeU32Put(|b|, b + t);
    TakeBytesPut(b, t);
  }

  /** The number at `pos`, or 0 when it does not lie inside the data. */
  function U32At(data: bytes, pos: nat): u32 {
    if pos + 4 <= |data| then
      assert Pow256(4) == 0x1_0000_0000;
      LeOfFromLe(data[pos..pos + 4]);
      FromLe(data[pos..pos + 4])
    else 0
  }

  /** The read with the fallback: the number that is stored at `pos`, or 0. */
  lemma U32AtExact(data: bytes, pos: nat, v: u32)
    ensures U32At(data, pos) == v <==> if pos + 4 <= |data| then data[pos..pos + 4] == Le32(v) else v == 0
  {
    if pos + 4 <= |data| {
      assert Pow256(4) == 0x1_0000_0000;
      LeOfFromLe(data[pos..pos + 4]);
      FromLeOfLe(v, 4);
    }
  }

  lemma U32AtPut(pre: bytes, n: u32, t: bytes)
    ensures U32At(pre + Le32(n) + t, |pre|) == n
  {
    var data := pre + Le32(n) + t;
    assert data[|pre|..|pre| + 4] == Le32(n);
    assert Pow256(4) == 0x1_0000_0000;
    FromLeOfLe(n, 4);
  }

  /**
   The cursor read that yields 0 out of range and always advances. Once it has been used
   out of range the cursor lies beyond the data.
   */
  method ReadU32(data: bytes, pos: nat) returns (v: u32, next: nat)
    ensures next == pos + 4
    ensures v == U32At(data, pos)
    ensures pos <= |data| ==>
              TakeU32(data[pos..]) == if next <= |data| then Ok((v, data[next..])) else Err(TooShort)
  {
    next := pos + 4;
    if next <= |data| {
      assert Pow256(4) == 0x1_0000_0000;
      LeOfFromLe(data[pos..next]);
      v := FromLe(data[pos..next]);
      assert data[pos..][..4] == data[pos..next];
      assert data[pos..][4..] == data[next..];
    } else {
      v := 0;
    }
  }

  /** `data.get(pos..pos + len)`, advancing the cursor on success. */
  method ReadBytes(data: bytes, pos: nat, len: nat) returns (r: Result<bytes>, next: nat)
    ensures r.Ok? <==> pos + len <= |data|
    ensures r.Err? ==> r == Err(TooShort)
    ensures r.Ok? ==> next == pos + len && TakeBytes(data[pos..], len) == Ok((r.value, data[next..]))
  {
    next := pos;
    if pos + len <= |data| {
      r := Ok(data[pos..pos + len]);
      next := pos + len;
      assert data[pos..][..len] == data[pos..next];
      assert data[pos..][len..] == data[next..];
    } else {
      r := Err(TooShort);
    }
  }

  /** A length read with the fallback, then that many bytes read with the bounds check. */
  method ReadLenPrefixed(data: bytes, pos: nat) returns (r: Result<field>, next: nat)
    ensures r.Err? ==> r == Err(TooShort)
    ensures r.Ok? ==> next <= |data| && pos <= |data|
    ensures pos <= |data| ==>
              TakePrefixed(data[pos..]) == if r.Ok? then Ok((r.value, data[next..])) else Err(TooShort)
  {
    var len;
    len, next := ReadU32(data, pos);
    r, next := ReadBytes(data, next, len);
  }
}
