/** `VAULT_VCRD` records: a map of offsets and the attributes they delimit (`core/src/vault.rs`). */
module Vcrd {
  import opened Bytes
  import opened Results
  import opened Wire
  import opened Vault

  // ---------- One attribute ----------

  /** `IVPresent`, `IVSize` and IV. Without an IV the size is stored, read and ignored. */
  datatype IvField =
    | NoIv(ivSize: u32)
    | WithIv(flag: byte, iv: field)

  /** A stored attribute; `slack` is whatever follows its data. */
  datatype Attr = Attr(
    id: u32,
    unknown1: u32,
    unknown2: u32,
    unknown3: u32,
    padded: bool,
    unknown5: u32,
    ivField: IvField,
    data: bytes,
    slack: bytes)
  {
    /** The flag of an attribute with an IV is not zero, and the size field can hold the size. */
    predicate Valid() {
      && (ivField.WithIv? ==> ivField.flag != 0)
      && Size() < 0x1_0000_0000
    }

    function Iv(): bytes {
      if ivField.WithIv? then ivField.iv else []
    }

    function Size(): nat {
      if ivField.WithIv? then |ivField.iv| + 5 + |data| else 1 + |data|
    }
  }

  function IvBytes(f: IvField): bytes {
    match f
    case NoIv(n) => [0] + Le32(n)
    case WithIv(flag, iv) => [flag] + Prefixed(iv)
  }

  /** From `Size` on. */
  function SizedPart(a: Attr): bytes
    requires a.Valid()
  {
    Le32(a.Size()) + (IvBytes(a.ivField) + (a.data + a.slack))
  }

  /** Behind the optional pad. */
  function Unpadded(a: Attr): bytes
    requires a.Valid()
  {
    if a.id >= 100 then Le32(a.unknown5) + SizedPart(a) else SizedPart(a)
  }

  function FixedPart(a: Attr): (r: bytes)
    ensures |r| == 16
  {
    Le32(a.id) + (Le32(a.unknown1) + (Le32(a.unknown2) + Le32(a.unknown3)))
  }

  /** The writer of one attribute. */
  function WriteAttr(a: Attr): bytes
    requires a.Valid()
  {
    FixedPart(a) + ((if a.padded then Zeros(6) else []) + Unpadded(a))
  }

  /** The parser takes six zero bytes behind the fixed part for a pad. */
  predicate PadSeen(attr: bytes) {
    |attr| >= 22 && attr[16..22] == Zeros(6)
  }

  /** The specification of the payload parser, behind the pad and `Unknown5`. */
  function TakeSized(s: bytes): Option<(bytes, bytes)> {
    match TakeU32(s)
    case Err(_) => None
    case Ok((size, s)) =>
      if s == [] then None
      else
        match TakeU32(s[1..])
        case Err(_) => None
        case Ok((ivSize, t)) =>
          if s[0] != 0 then
            if ivSize > |t| || size < ivSize as int + 5 || size - 5 > |t| then None
            else Some((t[..ivSize], t[ivSize..size - 5]))
          else
            if size < 1 || size - 1 > |t| then None
            else Some(([], t[..size - 1]))
  }

  /** IV and data of an attribute, or nothing. */
  function AttributePayload(attr: bytes): Option<(bytes, bytes)> {
    if |attr| <= 28 then None
    else
      var s := if PadSeen(attr) then attr[22..] else attr[16..];
      TakeSized(if U32At(attr, 0) >= 100 then s[4..] else s)
  }

  /** The payload parser as it runs, with a cursor and a bounds check on every read. */
  method ParseAttributePayload(attr: bytes) returns (r: Option<(bytes, bytes)>)
    ensures r == AttributePayload(attr)
  {
    if |attr| <= 28 {
      return None;
    }
    var id, _ := ReadU32(attr, 0);
    var pos := 16;
    if attr[16..22] == Zeros(6) {
      pos := pos + 6;
    }
    if id >= 100 {
      assert attr[pos..][4..] == attr[pos + 4..];
      pos := pos + 4;
    }
    r := ParseSized(attr, pos);
  }

  method ParseSized(attr: bytes, start: nat) returns (r: Option<(bytes, bytes)>)
    requires start <= |attr|
    ensures r == TakeSized(attr[start..])
  {
    if start + 4 > |attr| {
      return None;
    }
    var size, pos := ReadU32(attr, start);
    if pos >= |attr| {
      return None;
    }
    var ivPresent := attr[pos];
    ghost var s := attr[pos..];
    assert ivPresent == s[0] && s[1..] == attr[pos + 1..];
    pos := pos + 1;
    if pos + 4 > |attr| {
      return None;
    }
    var ivSize;
    ivSize, pos := ReadU32(attr, pos);
    ghost var t := attr[pos..];
    if ivPresent != 0 {
      if pos + ivSize > |attr| {
        return None;
      }
      var iv := attr[pos..pos + ivSize];
      assert iv == t[..ivSize];
      if size < ivSize as int + 5 {
        return None;
      }
      var dataLen := size - (ivSize + 5);
      if pos + ivSize + dataLen > |attr| {
        return None;
      }
      assert attr[pos + ivSize..pos + ivSize + dataLen] == t[ivSize..size - 5];
      r := Some((iv, attr[pos + ivSize..pos + ivSize + dataLen]));
    } else {
      if size < 1 {
        return None;
      }
      var dataLen := size - 1;
      if pos + dataLen > |attr| {
        return None;
      }
      assert attr[pos..pos + dataLen] == t[..size - 1];
      r := Some(([], attr[pos..pos + dataLen]));
    }
  }

  /** The attribute whose missing pad the parser takes for a pad. */
  predicate Ambiguous(a: Attr) {
    !a.padded && a.id >= 100 && a.unknown5 == 0 && a.Size() % 0x1_0000 == 0
  }

  /** Two little-endian bytes of a number are zero exactly when it is a multiple of 65536. */
  lemma LowHalfZero(n: u32, t: bytes)
    ensures (Le32(n) + t)[..2] == [0, 0] <==> n % 0x1_0000 == 0
    ensures (Le32(n) + t)[..4] == Zeros(4) <==> n == 0
  {
    var b := Le(n, 4);
    assert b[0] == n % 256;
    assert Le(n / 256, 3) == b[1..];
    assert b[1] == n / 256 % 256;
    assert Le(n / 256 / 256, 2) == b[2..];
    assert b[2] == n / 256 / 256 % 256;
    assert Le(n / 256 / 256 / 256, 1) == b[3..];
    assert b[3] == n / 256 / 256 / 256 % 256;
    assert (b + t)[..2] == [b[0], b[1]];
    assert (b + t)[..4] == [b[0], b[1], b[2], b[3]];
  }

  /**
   Pad disambiguation is exact. A pad is always recognised. Without one the parser sees a pad
   exactly when the identifier is at least 100, `Unknown5` is 0 and the size is a multiple of 65536;
   below 100 it never does, because the size of a written attribute is not 0.
   */
  lemma PadSeenExact(a: Attr)
    requires a.Valid()
    ensures PadSeen(WriteAttr(a)) <==> a.padded || Ambiguous(a)
  {
    var w := WriteAttr(a);
    if a.padded {
      assert w[16..22] == Zeros(6);
    } else {
      var u := Unpadded(a);
      assert w == FixedPart(a) + u by {
        assert [] + u == u;
      }
      assert w[16..22] == u[..6];
      UnpaddedFront(a);
    }
  }

  lemma UnpaddedFront(a: Attr)
    requires a.Valid()
    ensures |Unpadded(a)| >= 9
    ensures Unpadded(a)[..6] == Zeros(6) <==> a.id >= 100 && a.unknown5 == 0 && a.Size() % 0x1_0000 == 0
  {
    var u, sized := Unpadded(a), SizedPart(a);
    var rest := IvBytes(a.ivField) + (a.data + a.slack);
    LowHalfZero(a.Size(), rest);
    assert |sized| >= 9;
    SixZeros(u);
    if a.id >= 100 {
      LowHalfZero(a.unknown5, sized);
      assert u[4..6] == sized[..2];
    }
  }

  lemma SixZeros(s: bytes)
    requires |s| >= 6
    ensures s[..6] == Zeros(6) <==> s[..4] == Zeros(4) && s[4..6] == [0, 0]
  {
    assert s[..6] == s[..4] + s[4..6];
    assert Zeros(6) == Zeros(4) + [0, 0];
    if s[..6] == Zeros(6) {
      assert s[..4] == s[..6][..4] && s[4..6] == s[..6][4..];
    }
  }

  lemma TakeSizedPut(a: Attr)
    requires a.Valid()
    ensures TakeSized(SizedPart(a)) == Some((a.Iv(), a.data))
  {
    match a.ivField {
      case NoIv(n) => TakeSizedNoIv(a.Size(), n, a.data, a.slack);
      case WithIv(flag, iv) => TakeSizedIv(a.Size(), flag, iv, a.data, a.slack);
    }
  }

  lemma TakeSizedNoIv(size: u32, n: u32, data: bytes, slack: bytes)
    requires size == 1 + |data|
    ensures TakeSized(Le32(size) + (([0] + Le32(n)) + (data + slack))) == Some(([], data))
  {
    var s := ([0] + Le32(n)) + (data + slack);
    TakeU32Put(size, s);
    assert s[1..] == Le32(n) + (data + slack);
    TakeU32Put(n, data + slack);
    assert (data + slack)[..size - 1] == data;
  }

  lemma TakeSizedIv(size: u32, flag: byte, iv: field, data: bytes, slack: bytes)
    requires flag != 0 && size == |iv| + 5 + |data|
    ensures TakeSized(Le32(size) + (([flag] + Prefixed(iv)) + (data + slack))) == Some((iv, data))
  {
    var s := ([flag] + Prefixed(iv)) + (data + slack);
    var t := iv + (data + slack);
    TakeU32Put(size, s);
    assert s[1..] == Le32(|iv|) + t;
    TakeU32Put(|iv|, t);
    assert t[..|iv|] == iv;
    assert t[|iv|..size - 5] == data;
  }

  lemma FixedPartRead(a: Attr)
    requires a.Valid()
    ensures |WriteAttr(a)| >= 25 && U32At(WriteAttr(a), 0) == a.id
  {
    UnpaddedFront(a);
    var rest := (if a.padded then Zeros(6) else []) + Unpadded(a);
    FirstNumber(a.id, Le32(a.unknown1) + (Le32(a.unknown2) + Le32(a.unknown3)), rest);
  }

  lemma BehindPad(a: Attr)
    requires a.Valid()
    ensures |WriteAttr(a)| >= 25
    ensures (if a.padded then WriteAttr(a)[22..] else WriteAttr(a)[16..]) == Unpadded(a)
  {
    var pad, u := if a.padded then Zeros(6) else [], Unpadded(a);
    UnpaddedFront(a);
    BehindTwo(FixedPart(a), pad, u);
  }

  lemma BehindTwo(a: bytes, b: bytes, c: bytes)
    ensures (a + (b + c))[|a| + |b|..] == c
  {
  }

  /** Parsing a written attribute of more than 28 bytes gives its IV and data, unless it is ambiguous. */
  lemma PayloadOfWrite(a: Attr)
    requires a.Valid() && !Ambiguous(a)
    ensures AttributePayload(WriteAttr(a)) == if |WriteAttr(a)| > 28 then Some((a.Iv(), a.data)) else None
  {
    PadSeenExact(a);
    FixedPartRead(a);
    BehindPad(a);
    TakeSizedPut(a);
    if a.id >= 100 {
      assert Unpadded(a)[4..] == SizedPart(a);
    }
  }

  lemma FirstNumber(n: u32, b: bytes, t: bytes)
    ensures U32At((Le32(n) + b) + t, 0) == n
  {
    assert (Le32(n) + b) + t == [] + Le32(n) + (b + t);
    U32AtPut([], n, b + t);
  }

  /** `s` is what the writer makes of `a`; short and ambiguous attributes are not meant to be read. */
  predicate Stores(s: bytes, a: Attr) {
    a.Valid() && !Ambiguous(a) && |s| > 28 && s == WriteAttr(a)
  }

  /** An attribute gives an IV and data exactly when it was written with them. */
  lemma PayloadExact(s: bytes, iv: bytes, data: bytes)
    ensures AttributePayload(s) == Some((iv, data)) <==>
            exists a :: Stores(s, a) && iv == a.Iv() && data == a.data
  {
    if AttributePayload(s) == Some((iv, data)) {
      var a := Unwrite(s, iv, data);
      assert Stores(s, a);
    }
    forall a | Stores(s, a)
      ensures AttributePayload(s) == Some((a.Iv(), a.data))
    {
      PayloadOfWrite(a);
    }
  }

  /** Everything that parses was written: the attribute is put together from the fields it was cut into. */
  lemma Unwrite(s: bytes, iv: bytes, data: bytes) returns (a: Attr)
    requires AttributePayload(s) == Some((iv, data))
    ensures Stores(s, a) && iv == a.Iv() && data == a.data
  {
    hide TakeSized, IvBytes;
    var padded := PadSeen(s);
    var behind := if padded then s[22..] else s[16..];
    a := UnwriteBehind(s, behind, padded, iv, data);
    ThreeParts(s, padded);
    PadSeenExact(a);
  }

  lemma UnwriteBehind(s: bytes, behind: bytes, padded: bool, iv: bytes, data: bytes) returns (a: Attr)
    requires |s| > 28 && |behind| >= 4
    requires TakeSized(if U32At(s, 0) >= 100 then behind[4..] else behind) == Some((iv, data))
    ensures a.Valid() && FixedPart(a) == s[..16] && a.padded == padded && Unpadded(a) == behind
    ensures iv == a.Iv() && data == a.data
  {
    hide TakeSized, IvBytes, Le;
    var id, unknown1, unknown2, unknown3 := UnwriteFixed(s);
    var (unknown5, _) := TakeU32(behind).value;
    var ivField, slack := UnwriteSized(if id >= 100 then behind[4..] else behind, iv, data);
    a := Attr(id, unknown1, unknown2, unknown3, padded, unknown5, ivField, data, slack);
  }

  lemma ThreeParts(s: bytes, padded: bool)
    requires |s| > 28 && padded == PadSeen(s)
    ensures s == s[..16] + ((if padded then Zeros(6) else []) + if padded then s[22..] else s[16..])
  {
    if padded {
      assert s == s[..16] + (s[16..22] + s[22..]);
    } else {
      assert [] + s[16..] == s[16..];
    }
  }

  lemma UnwriteFixed(s: bytes) returns (id: u32, unknown1: u32, unknown2: u32, unknown3: u32)
    requires |s| > 28
    ensures id == U32At(s, 0)
    ensures s[..16] == Le32(id) + (Le32(unknown1) + (Le32(unknown2) + Le32(unknown3)))
  {
    var one := TakeU32(s).value;
    var two := TakeU32(one.1).value;
    var three := TakeU32(two.1).value;
    var four := TakeU32(three.1).value;
    id, unknown1, unknown2, unknown3 := one.0, two.0, three.0, four.0;
    assert s == (Le32(id) + (Le32(unknown1) + (Le32(unknown2) + Le32(unknown3)))) + four.1;
  }

  lemma UnwriteSized(s: bytes, iv: bytes, data: bytes) returns (f: IvField, slack: bytes)
    requires TakeSized(s) == Some((iv, data))
    ensures f.WithIv? ==> f.flag != 0
    ensures iv == if f.WithIv? then f.iv else []
    ensures var size := if f.WithIv? then |f.iv| + 5 + |data| else 1 + |data|;
            size < 0x1_0000_0000 && s == Le32(size) + (IvBytes(f) + (data + slack))
  {
    hide Le, TakeU32;
    var (size, rest) := TakeU32(s).value;
    var (ivSize, t) := TakeU32(rest[1..]).value;
    FlagAndSize(rest, ivSize, t);
    if rest[0] != 0 {
      slack := t[size - 5..];
      SplitIv(t, ivSize, size - 5);
      f := JoinIv(rest[0], ivSize, iv, data + slack);
    } else {
      f, slack := NoIv(ivSize), t[size - 1..];
      assert t == data + slack;
    }
  }

  lemma SplitIv(t: bytes, i: nat, j: nat)
    requires i <= j <= |t|
    ensures t == t[..i] + (t[i..j] + t[j..])
  {
  }

  lemma JoinIv(flag: byte, ivSize: u32, iv: bytes, t: bytes) returns (f: IvField)
    requires |iv| == ivSize
    ensures f == WithIv(flag, iv) && ([flag] + Le32(ivSize)) + (iv + t) == IvBytes(f) + t
  {
    f := WithIv(flag, iv);
    Associates([flag] + Le32(ivSize), iv, t);
    Associates([flag], Le32(ivSize), iv);
  }

  lemma FlagAndSize(rest: bytes, ivSize: u32, t: bytes)
    requires rest != [] && rest[1..] == Le32(ivSize) + t
    ensures rest == ([rest[0]] + Le32(ivSize)) + t
  {
    assert rest == [rest[0]] + rest[1..];
    Associates([rest[0]], Le32(ivSize), t);
  }

  /** An ambiguous attribute is read as if a pad stood in it: six bytes too far, from inside its own size on. */
  lemma AmbiguousMisread(a: Attr)
    requires a.Valid() && Ambiguous(a) && |WriteAttr(a)| > 28
    ensures AttributePayload(WriteAttr(a)) == TakeSized(WriteAttr(a)[26..])
  {
    PadSeenExact(a);
    FixedPartRead(a);
    assert WriteAttr(a)[22..][4..] == WriteAttr(a)[26..];
  }

  /** What stands behind the IV size. */
  function Content(a: Attr): bytes {
    a.Iv() + a.data + a.slack
  }

  /** The stored IV size, whether or not there is an IV. */
  function StoredIvSize(a: Attr): u32
    requires a.Valid()
  {
    if a.ivField.WithIv? then |a.ivField.iv| else a.ivField.ivSize
  }

  /**
   The misread finds the same IV and data six bytes further on: the content repeats itself at this
   distance, far enough into the slack, and its first six bytes, the first of them together with the
   upper three of the IV size, are again size, flag and IV size.
   */
  predicate Echoes(a: Attr)
    requires a.Valid()
  {
    var c := Content(a);
    var n := |a.Iv()| + |a.data|;
    && |a.slack| >= 6 && n >= 6 && c[6..6 + n] == c[..n]
    && var size := StoredIvSize(a) / 256 + 0x100_0000 * c[0] as int;
       if c[1] == 0 then a.Iv() == [] && size == 1 + |a.data|
       else FromLe(c[2..6]) == |a.Iv()| && size == |a.Iv()| + 5 + |a.data|
  }

  /** A size, flag and IV size in front of `t` give IV and data exactly when both stand at the front of `t` with these sizes. */
  lemma TakeSizedExact(s: bytes, size: u32, rest: bytes, ivSize: u32, t: bytes, iv: bytes, data: bytes)
    requires TakeU32(s) == Ok((size, rest)) && rest != [] && TakeU32(rest[1..]) == Ok((ivSize, t))
    ensures TakeSized(s) == Some((iv, data)) <==>
            && |iv| + |data| <= |t| && t[..|iv| + |data|] == iv + data
            && if rest[0] == 0 then iv == [] && size == 1 + |data|
               else ivSize == |iv| && size == |iv| + 5 + |data|
  {
    var n := |iv| + |data|;
    if n <= |t| {
      assert t[..n] == t[..|iv|] + t[|iv|..n];
      if t[..n] == iv + data {
        assert t[..|iv|] == t[..n][..|iv|] && t[|iv|..n] == t[..n][|iv|..];
      }
    }
    if rest[0] == 0 && iv == [] {
      assert iv + data == data;
    }
  }

  /** From offset 26 on an attribute without pad shows the upper bytes of its IV size, then its content. */
  lemma BehindMisreadPad(a: Attr)
    requires a.Valid() && !a.padded && a.id >= 100
    ensures WriteAttr(a)[26..] == Le(StoredIvSize(a) / 256, 3) + Content(a)
  {
    var n, c := StoredIvSize(a), Content(a);
    var flag: byte := if a.ivField.WithIv? then a.ivField.flag else 0;
    assert IvBytes(a.ivField) + (a.data + a.slack) == [flag] + (Le32(n) + c) by {
      Associates([flag] + Le32(n), a.Iv(), a.data + a.slack);
      Associates([flag], Le32(n), c);
      Associates(a.Iv(), a.data, a.slack);
      assert NoIv(n).ivSize == n;
      if a.ivField.WithIv? {
        Associates([flag], Le32(n), a.Iv());
      } else {
        assert a.Iv() + (a.data + a.slack) == a.data + a.slack;
      }
    }
    assert Le32(n) == [n % 256] + Le(n / 256, 3);
    BehindFields(FixedPart(a), Le32(a.unknown5), Le32(a.Size()), flag, n % 256, Le(n / 256, 3), c);
  }

  lemma BehindFields(fixed: bytes, unknown5: bytes, size: bytes, flag: byte, low: byte, high: bytes, c: bytes)
    requires |fixed| == 16 && |unknown5| == |size| == 4
    ensures (fixed + ([] + (unknown5 + (size + ([flag] + (([low] + high) + c))))))[26..] == high + c
  {
    var w := fixed + ([] + (unknown5 + (size + ([flag] + (([low] + high) + c)))));
    assert w == (fixed + unknown5 + size + [flag, low]) + (high + c);
  }

  /** An ambiguous attribute comes back all the same exactly when it echoes itself. */
  lemma AmbiguousReturnsExact(a: Attr)
    requires a.Valid() && Ambiguous(a)
    ensures |WriteAttr(a)| > 28
    ensures AttributePayload(WriteAttr(a)) == Some((a.Iv(), a.data)) <==> Echoes(a)
  {
    hide AttributePayload, TakeSized, PadSeen, IvBytes, WriteAttr, Le, FromLe;
    var w, c, high := WriteAttr(a), Content(a), StoredIvSize(a) / 256;
    BehindMisreadPad(a);
    AmbiguousIsLong(a);
    AmbiguousMisread(a);
    var s := w[26..];
    var size := MisreadSize(s, high, c);
    assert s[4..] == c[1..] && c[1..][1..] == c[2..];
    var ivSize := TakeU32(c[2..]).value.0;
    FrontNumber(c[2..]);
    assert c[2..][..4] == c[2..6] && c[2..][4..] == c[6..];
    TakeSizedExact(s, size, c[1..], ivSize, c[6..], a.Iv(), a.data);
    var n := |a.Iv()| + |a.data|;
    assert c[..n] == a.Iv() + a.data;
    if n <= |c[6..]| {
      assert c[6..][..n] == c[6..6 + n];
    }
  }

  lemma FrontNumber(s: bytes)
    requires |s| >= 4
    ensures TakeU32(s).Ok? && TakeU32(s).value == (FromLe(s[..4]), s[4..])
  {
  }

  /** The size the misread finds: three bytes of the IV size and one of the content. */
  lemma MisreadSize(s: bytes, high: nat, c: bytes) returns (size: u32)
    requires high < 0x100_0000 && |c| >= 6 && s == Le(high, 3) + c
    ensures TakeU32(s) == Ok((size, s[4..])) && size == high + 0x100_0000 * c[0] as int
    ensures s[4..] == c[1..]
  {
    FrontNumber(s);
    size := TakeU32(s).value.0;
    assert Pow256(3) == 0x100_0000;
    FromLeOfLe(high, 3);
    FromLeAppends(Le(high, 3), [c[0]]);
    assert FromLe([c[0]]) == c[0] + 256 * FromLe([]);
    assert s[..4] == Le(high, 3) + [c[0]];
  }

  lemma AmbiguousIsLong(a: Attr)
    requires a.Valid() && Ambiguous(a)
    ensures |WriteAttr(a)| > 28 && |a.Iv()| + |a.data| >= 6
  {
    assert a.Size() >= 0x1_0000;
    BehindMisreadPad(a);
  }

  /** Parsing gives back what was written exactly when it has more than 28 bytes and, if ambiguous, echoes itself. */
  lemma PayloadReturnsExact(a: Attr)
    requires a.Valid()
    ensures AttributePayload(WriteAttr(a)) == Some((a.Iv(), a.data)) <==>
            |WriteAttr(a)| > 28 && (Ambiguous(a) ==> Echoes(a))
  {
    hide WriteAttr, AttributePayload, Ambiguous, Echoes;
    if Ambiguous(a) {
      AmbiguousReturnsExact(a);
    } else {
      PayloadOfWrite(a);
    }
  }

  /** Among zeros, with a fitting IV size that is otherwise ignored, an ambiguous attribute echoes itself. */
  lemma AmbiguousReturns()
    ensures var a := Attr(100, 0, 0, 0, false, 0, NoIv(0x100_0000), Zeros(65535), Zeros(6));
            a.Valid() && Ambiguous(a) && AttributePayload(WriteAttr(a)) == Some(([], Zeros(65535)))
  {
    hide WriteAttr, AttributePayload, FromLe;
    var a := Attr(100, 0, 0, 0, false, 0, NoIv(0x100_0000), Zeros(65535), Zeros(6));
    var c := Content(a);
    assert |c| == 65541 && forall i :: 0 <= i < 65541 ==> c[i] == 0;
    assert c[6..65541] == c[..65535];
    AmbiguousReturnsExact(a);
  }

  /** 65535 zero bytes, stored without pad and without IV under the identifier 100. */
  function DroppedAttr(): Attr {
    Attr(100, 0, 0, 0, false, 0, NoIv(0), Zeros(65535), [])
  }

  /** A valid attribute that is dropped, because its missing pad is taken for one. */
  lemma AmbiguousDropped()
    ensures DroppedAttr().Valid() && Ambiguous(DroppedAttr())
    ensures AttributePayload(WriteAttr(DroppedAttr())) == None
  {
    hide Le, AttributePayload, PadSeen;
    var a := DroppedAttr();
    var t := WriteAttr(a)[26..];
    DroppedTail();
    AmbiguousMisread(a);
    SmallZero();
    assert t == Le32(0) + t[4..];
    TakeU32Put(0, t[4..]);
  }

  /** What the misread finds is zeros: a size of 0, which no attribute has. */
  lemma DroppedTail()
    ensures WriteAttr(DroppedAttr())[26..] == Zeros(65538)
  {
    hide Le;
    var a := DroppedAttr();
    var head, tail := FixedPart(a) + (Le32(0) + Le32(65536)), IvBytes(a.ivField) + (a.data + a.slack);
    SmallZero();
    assert WriteAttr(a) == head + tail by {
      BehindNothing(FixedPart(a), Le32(0), Le32(65536), tail);
    }
    assert tail == Zeros(65540);
    assert (head + tail)[26..] == tail[2..];
  }

  lemma BehindNothing(a: bytes, b: bytes, c: bytes, d: bytes)
    ensures a + ([] + (b + (c + d))) == (a + (b + c)) + d
  {
  }

  lemma SmallZero()
    ensures Le32(0) == Zeros(4)
  {
    LowHalfZero(0, []);
    assert Le32(0) + [] == Le32(0);
    assert Le32(0)[..4] == Le32(0);
  }

  // ---------- The record ----------

  const MAP_ENTRY := 12

  datatype MapEntry = MapEntry(id: u32, offset: u32)

  /** The map as the code reads it: 0 for every number that does not lie inside the record. */
  function MapEntries(v: bytes, pos: nat, count: nat): (es: seq<MapEntry>)
    ensures |es| == count
    ensures forall i :: 0 <= i < count ==>
              es[i] == MapEntry(U32At(v, pos + 12 * i), U32At(v, pos + 12 * i + 4))
    decreases count
  {
    if count == 0 then []
    else [MapEntry(U32At(v, pos), U32At(v, pos + 4))] + MapEntries(v, pos + 12, count - 1)
  }

  /** Where an attribute ends: at the next one, or with the record. */
  function EndOf(es: seq<MapEntry>, i: nat, length: nat): nat
    requires i < |es|
  {
    if i + 1 < |es| then es[i + 1].offset else length
  }

  /** The attributes whose payload parses, in map order; an offset out of order or out of range is an error. */
  function Collect(v: bytes, es: seq<MapEntry>): (r: Result<seq<VcrdAttribute>>)
    ensures r.Err? ==> r == Err(TooShort)
  {
    if es == [] then Ok([])
    else
      var start, end := es[0].offset, EndOf(es, 0, |v|);
      if !(start <= end <= |v|) then Err(TooShort)
      else
        Prepend(AttributeAt(es[0].id, v[start..end]), Collect(v, es[1..]))
  }

  function AttributeAt(id: u32, slice: bytes): seq<VcrdAttribute> {
    match AttributePayload(slice)
    case Some((iv, data)) => [VcrdAttribute(id, iv, data)]
    case None => []
  }

  /** The start of the map and its size field: 36 bytes, a name, a size. */
  function MapHeader(v: bytes): (r: Result<(nat, u32)>)
    ensures r.Err? ==> r == Err(TooShort)
  {
    var (_, s) :- TakeBytes(v, 36);
    var (name, _) :- TakePrefixed(s);
    var pos := 36 + 4 + |name|;
    Ok((pos + 4, U32At(v, pos)))
  }

  function ParseVcrd(v: bytes): Result<seq<VcrdAttribute>> {
    var (start, size) :- MapHeader(v);
    if size % MAP_ENTRY != 0 then Err(TooShort) else Collect(v, MapEntries(v, start, size / MAP_ENTRY))
  }

  /** The header as the code reads it. */
  method ReadMapHeader(v: bytes) returns (r: Result<(nat, u32)>)
    ensures r == MapHeader(v)
  {
    var pos := 0;
    assert v[0..] == v;
    var next := Advance(pos, 16 + 4 + 8 + 4 + 4, |v|);
    if next.Err? {
      return Err(next.error);
    }
    TakeBytesAt(v, 0, 36);
    pos := next.value;
    var nameLen;
    nameLen, pos := ReadU32(v, pos);
    next := Advance(pos, nameLen, |v|);
    if next.Err? {
      return Err(next.error);
    }
    TakeBytesAt(v, pos, nameLen);
    pos := next.value;
    var size;
    size, pos := ReadU32(v, pos);
    r := Ok((pos, size));
  }

  /** The map loop: three numbers an entry, pushed one entry after the other. */
  method ReadMap(v: bytes, start: nat, count: nat) returns (offsets: seq<MapEntry>, mp: nat)
    ensures offsets == MapEntries(v, start, count)
    ensures mp == start + 12 * count
  {
    offsets := [];
    mp := start;
    for k := 0 to count
      invariant mp == start + 12 * k
      invariant |offsets| == k
      invariant forall i :: 0 <= i < k ==>
                  offsets[i] == MapEntry(U32At(v, start + 12 * i), U32At(v, start + 12 * i + 4))
    {
      var id, offset, unknown1;
      id, mp := ReadU32(v, mp);
      offset, mp := ReadU32(v, mp);
      unknown1, mp := ReadU32(v, mp);
      offsets := offsets + [MapEntry(id, offset)];
    }
    assert offsets == MapEntries(v, start, count);
  }

  /** What was collected before in front of the outcome for the rest. */
  function Prepend(attrs: seq<VcrdAttribute>, r: Result<seq<VcrdAttribute>>): Result<seq<VcrdAttribute>> {
    match r
    case Ok(rest) => Ok(attrs + rest)
    case Err(e) => Err(e)
  }

  lemma PrependNothing(r: Result<seq<VcrdAttribute>>)
    ensures Prepend([], r) == r
  {
    if r.Ok? {
      assert [] + r.value == r.value;
    }
  }

  lemma PrependTwice(a: seq<VcrdAttribute>, b: seq<VcrdAttribute>, r: Result<seq<VcrdAttribute>>)
    ensures Prepend(a, Prepend(b, r)) == Prepend(a + b, r)
    ensures b == [] ==> Prepend(a, Prepend(b, r)) == Prepend(a, r)
  {
    if r.Ok? {
      assert a + (b + r.value) == (a + b) + r.value;
      assert b == [] ==> b + r.value == r.value;
    }
  }

  /** The attribute loop: cut the slice, refuse it when it does not exist, push it when its payload parses. */
  method CollectAttributes(v: bytes, offsets: seq<MapEntry>) returns (r: Result<seq<VcrdAttribute>>)
    ensures r == Collect(v, offsets)
  {
    var attrs: seq<VcrdAttribute> := [];
    var i := 0;
    assert offsets[0..] == offsets;
    PrependNothing(Collect(v, offsets));
    while i < |offsets|
      invariant 0 <= i <= |offsets|
      invariant Collect(v, offsets) == Prepend(attrs, Collect(v, offsets[i..]))
    {
      ghost var es := offsets[i..];
      assert es[1..] == offsets[i + 1..];
      var start := offsets[i].offset;
      var end := if i + 1 < |offsets| then offsets[i + 1].offset else |v|;
      assert end == EndOf(es, 0, |v|);
      if !(start <= end <= |v|) {
        return Err(TooShort);
      }
      var payload := ParseAttributePayload(v[start..end]);
      PrependTwice(attrs, AttributeAt(offsets[i].id, v[start..end]), Collect(v, offsets[i + 1..]));
      if payload.Some? {
        attrs := attrs + [VcrdAttribute(offsets[i].id, payload.value.0, payload.value.1)];
      }
      i := i + 1;
    }
    assert offsets[i..] == [] && attrs + [] == attrs;
    r := Ok(attrs);
  }

  /** The record parser as it runs. Its check that the map was not overrun never refuses. */
  method ParseVcrdAttributes(v: bytes) returns (r: Result<seq<VcrdAttribute>>)
    ensures r == ParseVcrd(v)
  {
    var header := ReadMapHeader(v);
    if header.Err? {
      return Err(header.error);
    }
    var (mapsStart, mapsSize) := header.value;
    var mapsEnd := mapsStart + mapsSize;
    if mapsSize % MAP_ENTRY != 0 {
      return Err(TooShort);
    }
    var count := mapsSize / MAP_ENTRY;
    var offsets, mp := ReadMap(v, mapsStart, count);
    if mp > mapsEnd {
      return Err(TooShort);
    }
    r := CollectAttributes(v, offsets);
  }
}
