/** Hexadecimal text, as read and written by `core/src/wifi.rs` and `forensic/src/lib.rs`. */
module Hex {
  import opened Bytes
  import opened Results

  /** `str::as_bytes`: the UTF-8 encoding of section 3 of RFC 3629. */
  function AsBytes(s: string): bytes {
    if s == "" then [] else CharBytes(s[0]) + AsBytes(s[1..])
  }

  function CharBytes(c: char): (b: bytes)
    ensures |b| > 0
    ensures c as int < 128 ==> b == [c as int]
    ensures c as int >= 128 ==> forall x :: x in b ==> x >= 128
  {
    var v := c as int;
    if v < 0x80 then [v]
    else if v < 0x800 then [0xC0 + v / 0x40, 0x80 + v % 0x40]
    else if v < 0x1_0000 then [0xE0 + v / 0x1000, 0x80 + v / 0x40 % 0x40, 0x80 + v % 0x40]
    else [0xF0 + v / 0x4_0000, 0x80 + v / 0x1000 % 0x40, 0x80 + v / 0x40 % 0x40, 0x80 + v % 0x40]
  }

  /** What `b` stands for when its first byte starts at `lead`: six more bits with every following byte. */
  function Utf8Value(lead: int, b: bytes): int
    requires |b| > 0
  {
    if |b| == 1 then b[0] as int - lead else 0x40 * Utf8Value(lead, b[..|b| - 1]) + (b[|b| - 1] as int - 0x80)
  }

  /** Section 3 of RFC 3629: the number of bytes, their ranges, and the bits they carry. */
  lemma CharBytesExact(c: char)
    ensures var v, b := c as int, CharBytes(c);
            var lead := [0, 0xC0, 0xE0, 0xF0][|b| - 1];
            && |b| == (if v < 0x80 then 1 else if v < 0x800 then 2 else if v < 0x1_0000 then 3 else 4)
            && lead <= b[0] < [0x80, 0xE0, 0xF0, 0xF8][|b| - 1]
            && (forall i :: 1 <= i < |b| ==> 0x80 <= b[i] < 0xC0)
            && v == Utf8Value(lead, b)
  {
    var v, b := c as int, CharBytes(c);
    Sixes(v);
    if |b| == 2 {
      assert b[..1] == [b[0]];
    } else if |b| == 3 {
      assert b[..2] == [b[0], b[1]] && b[..2][..1] == [b[0]];
      assert Utf8Value(0xE0, [b[0]]) == v / 0x1000;
      assert Utf8Value(0xE0, b[..2]) == v / 0x40;
    } else if |b| == 4 {
      assert b[..3] == [b[0], b[1], b[2]] && b[..3][..2] == [b[0], b[1]] && b[..3][..2][..1] == [b[0]];
      assert Utf8Value(0xF0, [b[0]]) == v / 0x4_0000;
      assert Utf8Value(0xF0, b[..3][..2]) == v / 0x1000;
      assert Utf8Value(0xF0, b[..3]) == v / 0x40;
    }
  }

  lemma Sixes(v: nat)
    ensures v == 0x40 * (v / 0x40) + v % 0x40
    ensures v / 0x40 == 0x40 * (v / 0x1000) + v / 0x40 % 0x40
    ensures v / 0x1000 == 0x40 * (v / 0x4_0000) + v / 0x1000 % 0x40
  {
  }

  type nibble = n: nat | n < 16

  /** The value of a hexadecimal digit of either case. */
  function Nibble(b: byte): Option<nibble> {
    if '0' as int <= b <= '9' as int then Some(b - '0' as int)
    else if 'a' as int <= b <= 'f' as int then Some(b - 'a' as int + 10)
    else if 'A' as int <= b <= 'F' as int then Some(b - 'A' as int + 10)
    else None
  }

  /** The bytes written by pairs of digits, or nothing. */
  function HexBytes(s: bytes): (r: Option<bytes>)
    ensures r.Some? ==> 2 * |r.value| == |s|
  {
    if s == [] then Some([])
    else if |s| == 1 then None
    else PutByte(Nibble(s[0]), Nibble(s[1]), HexBytes(s[2..]))
  }

  /** One byte from two digits, in front of the rest. */
  function PutByte(hi: Option<nibble>, lo: Option<nibble>, rest: Option<bytes>): (r: Option<bytes>)
    ensures r.Some? ==> rest.Some? && |r.value| == 1 + |rest.value|
  {
    match (hi, lo, rest)
    case (Some(h), Some(l), Some(t)) => Some([Join(h, l)] + t)
    case _ => None
  }

  /** `(hi << 4) | lo`. */
  function Join(hi: nibble, lo: nibble): byte {
    hi * 16 + lo
  }

  /** The two lower-case digits of a byte. */
  function Digit(n: nat): (d: byte)
    requires n < 16
    ensures Nibble(d) == Some(n)
  {
    if n < 10 then '0' as int + n else 'a' as int + n - 10
  }

  /** The lower-case digits of a byte string, as character codes. */
  function HexDigits(b: bytes): (s: bytes)
    ensures |s| == 2 * |b|
  {
    if b == [] then [] else [Digit(b[0] / 16), Digit(b[0] % 16)] + HexDigits(b[1..])
  }

  function ToLower(b: byte): byte {
    if 'A' as int <= b <= 'Z' as int then b + 32 else b
  }

  function LowerAll(s: bytes): (r: bytes)
    ensures |r| == |s|
    ensures forall i :: 0 <= i < |s| ==> r[i] == ToLower(s[i])
  {
    seq(|s|, i requires 0 <= i < |s| => ToLower(s[i]))
  }

  lemma NibbleExact(b: byte, n: nat)
    requires n < 16
    ensures Nibble(b) == Some(n) <==> ToLower(b) == Digit(n)
  {
  }

  /** A text decodes to `b` exactly when, letter case aside, it is the lower-case encoding of `b`. */
  lemma {:induction false} HexExact(s: bytes, b: bytes)
    ensures HexBytes(s) == Some(b) <==> LowerAll(s) == HexDigits(b)
    decreases |s|
  {
    if |s| >= 2 && |b| >= 1 {
      HexExact(s[2..], b[1..]);
      NibbleExact(s[0], b[0] / 16);
      NibbleExact(s[1], b[0] % 16);
      PutByteExact(Nibble(s[0]), Nibble(s[1]), HexBytes(s[2..]), b);
      assert LowerAll(s) == [ToLower(s[0]), ToLower(s[1])] + LowerAll(s[2..]);
      FrontAndRest([ToLower(s[0]), ToLower(s[1])], LowerAll(s[2..]),
                   [Digit(b[0] / 16), Digit(b[0] % 16)], HexDigits(b[1..]));
    }
  }

  lemma FrontAndRest(a: bytes, s: bytes, b: bytes, t: bytes)
    requires |a| == |b| == 2
    ensures a + s == b + t <==> a[0] == b[0] && a[1] == b[1] && s == t
  {
    if a + s == b + t {
      assert a == (a + s)[..2] && s == (a + s)[2..];
      assert b == (b + t)[..2] && t == (b + t)[2..];
    }
  }

  lemma PutByteExact(hi: Option<nibble>, lo: Option<nibble>, rest: Option<bytes>, b: bytes)
    requires |b| >= 1
    ensures PutByte(hi, lo, rest) == Some(b) <==>
            hi == Some(b[0] / 16) && lo == Some(b[0] % 16) && rest == Some(b[1..])
  {
    if hi.Some? && lo.Some? && rest.Some? {
      TwoNibbles(hi.value, lo.value, b[0]);
      SameHead(Join(hi.value, lo.value), rest.value, b);
    }
  }

  lemma TwoNibbles(hi: nibble, lo: nibble, b: byte)
    ensures b == Join(hi, lo) <==> hi == b / 16 && lo == b % 16
  {
  }

  lemma SameHead(x: byte, rest: bytes, b: bytes)
    requires |b| >= 1
    ensures [x] + rest == b <==> x == b[0] && rest == b[1..]
  {
    assert b == [b[0]] + b[1..];
    assert ([x] + rest)[1..] == rest;
  }

  /** Letter case does not matter. */
  lemma HexIgnoresCase(s: bytes, t: bytes)
    requires LowerAll(s) == LowerAll(t)
    ensures HexBytes(s) == HexBytes(t)
  {
    if HexBytes(s).Some? {
      HexExact(s, HexBytes(s).value);
      HexExact(t, HexBytes(s).value);
    }
    if HexBytes(t).Some? {
      HexExact(s, HexBytes(t).value);
      HexExact(t, HexBytes(t).value);
    }
  }

  /** Decoding inverts encoding, so the encoding is injective. */
  lemma HexOfDigits(b: bytes)
    ensures HexBytes(HexDigits(b)) == Some(b)
  {
    DigitsAreLower(b);
    HexExact(HexDigits(b), b);
  }

  lemma {:induction false} DigitsAreLower(b: bytes)
    ensures LowerAll(HexDigits(b)) == HexDigits(b)
  {
    if b != [] {
      DigitsAreLower(b[1..]);
      var d := HexDigits(b);
      forall i | 0 <= i < |d|
        ensures ToLower(d[i]) == d[i]
      {
        if i >= 2 {
          assert d[i] == HexDigits(b[1..])[i - 2] == LowerAll(HexDigits(b[1..]))[i - 2];
        }
      }
    }
  }

  lemma {:induction false} HexDigitsAppend(a: bytes, b: bytes)
    ensures HexDigits(a + b) == HexDigits(a) + HexDigits(b)
  {
    if a == [] {
      assert a + b == b;
    } else {
      assert (a + b)[1..] == a[1..] + b;
      HexDigitsAppend(a[1..], b);
    }
  }

  // ---------- Text ----------

  /** The characters with these codes. */
  function AsciiString(b: bytes): (s: string)
    requires forall i :: 0 <= i < |b| ==> b[i] < 128
    ensures |s| == |b|
    ensures forall i :: 0 <= i < |b| ==> s[i] as int == b[i]
  {
    seq(|b|, i requires 0 <= i < |b| => b[i] as char)
  }

  lemma {:induction false} AsBytesOfAscii(s: string, b: bytes)
    requires |s| == |b| && forall i :: 0 <= i < |s| ==> s[i] as int == b[i] < 128
    ensures AsBytes(s) == b
  {
    if s != "" {
      AsBytesOfAscii(s[1..], b[1..]);
      assert b == [b[0]] + b[1..];
    }
  }

  lemma {:induction false} DigitsAreAscii(b: bytes)
    ensures forall i :: 0 <= i < 2 * |b| ==> HexDigits(b)[i] < 128 && Nibble(HexDigits(b)[i]).Some?
  {
    if b != [] {
      DigitsAreAscii(b[1..]);
    }
  }

  /** Of a text whose bytes are all hexadecimal digits, every character is such a digit. */
  lemma {:induction false} DigitsOnly(s: string)
    requires forall i :: 0 <= i < |AsBytes(s)| ==> Nibble(AsBytes(s)[i]).Some?
    ensures forall i :: 0 <= i < |s| ==> s[i] as int < 128 && Nibble(s[i] as int).Some?
  {
    if s != "" {
      var head, rest := CharBytes(s[0]), AsBytes(s[1..]);
      assert AsBytes(s)[0] == head[0] && head[0] in head;
      forall i | 0 <= i < |rest|
        ensures Nibble(rest[i]).Some?
      {
        assert rest[i] == AsBytes(s)[|head| + i];
      }
      DigitsOnly(s[1..]);
    }
  }

  /** A text that decodes holds nothing but hexadecimal digits. */
  lemma EncodingIsDigits(s: string, b: bytes)
    requires LowerAll(AsBytes(s)) == HexDigits(b)
    ensures forall i :: 0 <= i < |s| ==> s[i] as int < 128 && Nibble(s[i] as int).Some?
  {
    hide Nibble, ToLower, HexDigits;
    var codes := AsBytes(s);
    DigitsAreAscii(b);
    forall i | 0 <= i < |codes|
      ensures Nibble(codes[i]).Some?
    {
      assert HexDigits(b)[i] == LowerAll(codes)[i];
      DigitOfEitherCase(codes[i]);
    }
    DigitsOnly(s);
  }

  lemma DigitOfEitherCase(b: byte)
    ensures Nibble(ToLower(b)).Some? <==> Nibble(b).Some?
  {
  }

  /** Lower-case hexadecimal text. */
  function HexText(b: bytes): (s: string)
    ensures |s| == 2 * |b|
    ensures AsBytes(s) == HexDigits(b)
  {
    DigitsAreAscii(b);
    var s := AsciiString(HexDigits(b));
    AsBytesOfAscii(s, HexDigits(b));
    s
  }

  lemma HexTextInjective(a: bytes, b: bytes)
    requires HexText(a) == HexText(b)
    ensures a == b
  {
    HexOfDigits(a);
    HexOfDigits(b);
  }

  // ---------- The loops ----------

  /** What two digits at a time have given so far, in front of the outcome for the rest. */
  function InFront(out: bytes, r: Option<bytes>): Option<bytes> {
    match r
    case Some(rest) => Some(out + rest)
    case None => None
  }

  /** Two digits at `i`, then the rest. */
  lemma HexStep(codes: bytes, i: nat, out: bytes)
    requires i + 2 <= |codes|
    ensures Nibble(codes[i]).None? || Nibble(codes[i + 1]).None? ==> HexBytes(codes[i..]).None?
    ensures Nibble(codes[i]).Some? && Nibble(codes[i + 1]).Some? ==>
              InFront(out, HexBytes(codes[i..])) ==
              InFront(out + [Join(Nibble(codes[i]).value, Nibble(codes[i + 1]).value)], HexBytes(codes[i + 2..]))
  {
    var rest := codes[i..];
    assert rest[0] == codes[i] && rest[1] == codes[i + 1] && rest[2..] == codes[i + 2..];
    if Nibble(codes[i]).Some? && Nibble(codes[i + 1]).Some? && HexBytes(rest[2..]).Some? {
      var b := [Join(Nibble(codes[i]).value, Nibble(codes[i + 1]).value)];
      Associates(out, b, HexBytes(rest[2..]).value);
    }
  }

  /** `hex_decode` of the Wi-Fi module. */
  method WlanHexDecode(s: string) returns (r: Result<bytes>)
    ensures r == match HexBytes(AsBytes(s)) case Some(b) => Ok(b) case None => Err(InvalidHex)
  {
    var codes := AsBytes(s);
    if |codes| % 2 != 0 {
      OddIsRefused(codes);
      return Err(InvalidHex);
    }
    var out: bytes := [];
    var i := 0;
    ghost var n, k := |codes| / 2, 0;
    assert codes[0..] == codes;
    EmptyInFront(HexBytes(codes));
    while i < |codes|
      invariant i == 2 * k && |codes| == 2 * n && k <= n
      invariant HexBytes(codes) == InFront(out, HexBytes(codes[i..]))
    {
      HexStep(codes, i, out);
      var hi := Nibble(codes[i]);
      if hi.None? {
        return Err(InvalidHex);
      }
      var lo := Nibble(codes[i + 1]);
      if lo.None? {
        return Err(InvalidHex);
      }
      out := out + [Join(hi.value, lo.value)];
      i, k := i + 2, k + 1;
    }
    assert codes[i..] == [] && out + [] == out;
    r := Ok(out);
  }

  /** `hex_decode` of the command line, written a second time: both digits are read in one expression. */
  method CliHexDecode(s: string) returns (r: Option<bytes>)
    ensures r == HexBytes(AsBytes(s))
  {
    var codes := AsBytes(s);
    if |codes| % 2 != 0 {
      OddIsRefused(codes);
      return None;
    }
    var out: bytes := [];
    var i := 0;
    ghost var n, k := |codes| / 2, 0;
    assert codes[0..] == codes;
    EmptyInFront(HexBytes(codes));
    while i < |codes|
      invariant i == 2 * k && |codes| == 2 * n && k <= n
      invariant HexBytes(codes) == InFront(out, HexBytes(codes[i..]))
    {
      HexStep(codes, i, out);
      var hi, lo := Nibble(codes[i]), Nibble(codes[i + 1]);
      if hi.None? || lo.None? {
        return None;
      }
      out := out + [Join(hi.value, lo.value)];
      i, k := i + 2, k + 1;
    }
    assert codes[i..] == [] && out + [] == out;
    r := Some(out);
  }

  lemma EmptyInFront(r: Option<bytes>)
    ensures InFront([], r) == r
  {
    if r.Some? {
      assert [] + r.value == r.value;
    }
  }

  lemma {:induction false} OddIsRefused(s: bytes)
    requires |s| % 2 != 0
    ensures HexBytes(s).None?
    decreases |s|
  {
    if |s| > 1 {
      OddIsRefused(s[2..]);
    }
  }

  /** `hex_encode`: two lower-case digits appended for every byte. */
  method HexEncode(b: bytes) returns (s: string)
    ensures s == HexText(b)
  {
    s := "";
    var i := 0;
    while i < |b|
      invariant 0 <= i <= |b| && |s| == 2 * i
      invariant forall k :: 0 <= k < 2 * i ==> s[k] as int == HexDigits(b)[k]
    {
      DigitsAt(b, i);
      s := s + [Digit(b[i] / 16) as char, Digit(b[i] % 16) as char];
      i := i + 1;
    }
    var t := HexText(b);
    SameCodes(s, b);
  }

  lemma {:induction false} DigitsAt(b: bytes, i: nat)
    requires i < |b|
    ensures HexDigits(b)[2 * i] == Digit(b[i] / 16) && HexDigits(b)[2 * i + 1] == Digit(b[i] % 16)
  {
    if i > 0 {
      DigitsAt(b[1..], i - 1);
    }
  }

  /** Each byte is shown as the digit of its upper half, then that of its lower half, in lower case. */
  lemma HexTextLayout(b: bytes, i: nat)
    requires i < |b|
    ensures HexText(b)[2 * i] == "0123456789abcdef"[b[i] / 16]
    ensures HexText(b)[2 * i + 1] == "0123456789abcdef"[b[i] % 16]
  {
    hide HexDigits;
    DigitsAt(b, i);
    DigitIsShown(b[i] / 16);
    DigitIsShown(b[i] % 16);
    TextCodes(b, 2 * i);
    TextCodes(b, 2 * i + 1);
  }

  lemma TextCodes(b: bytes, k: nat)
    requires k < 2 * |b|
    ensures HexText(b)[k] as int == HexDigits(b)[k]
  {
    DigitsAreAscii(b);
  }

  lemma DigitIsShown(n: nat)
    requires n < 16
    ensures "0123456789abcdef"[n] as int == Digit(n)
  {
  }

  lemma SameCodes(s: string, b: bytes)
    requires |s| == 2 * |b| && forall k :: 0 <= k < |s| ==> s[k] as int == HexDigits(b)[k]
    ensures s == HexText(b)
  {
    DigitsAreAscii(b);
    var t := AsciiString(HexDigits(b));
    forall k | 0 <= k < |s|
      ensures s[k] == t[k]
    {
      assert s[k] as int == t[k] as int;
    }
  }
}
