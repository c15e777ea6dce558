/** UTF-16LE text, in the sense of sections 2.1 and 2.2 of RFC 2781. */
module Text {
  import opened Bytes

  /** Whole little-endian 16-bit units; an odd last byte is dropped. */
  function Words(b: bytes): (w: seq<u16>)
    ensures |w| == |b| / 2
  {
    if |b| < 2 then []
    else
      var lo: nat, hi: nat := b[0], b[1];
      [lo + 256 * hi] + Words(b[2..])
  }

  function WordBytes(w: seq<u16>): (b: bytes)
    ensures |b| == 2 * |w|
  {
    if w == [] then [] else [w[0] % 256, w[0] / 256] + WordBytes(w[1..])
  }

  predicate IsHigh(u: u16) {
    0xD800 <= u < 0xDC00
  }

  predicate IsLow(u: u16) {
    0xDC00 <= u < 0xE000
  }

  function JoinPair(high: nat, low: nat): char
    requires 0xD800 <= high < 0xDC00 && 0xDC00 <= low < 0xE000
  {
    (0x1_0000 + (high - 0xD800) * 0x400 + (low - 0xDC00)) as char
  }

  const REPLACEMENT: char := 0xFFFD as char

  /** A surrogate pair is one scalar value; a surrogate without its partner is replaced. */
  function LossyUtf16(w: seq<u16>): string
    decreases |w|
  {
    if w == [] then ""
    else if IsHigh(w[0]) && |w| > 1 && IsLow(w[1]) then
      [JoinPair(w[0], w[1])] + LossyUtf16(w[2..])
    else if IsHigh(w[0]) || IsLow(w[0]) then [REPLACEMENT] + LossyUtf16(w[1..])
    else [w[0] as char] + LossyUtf16(w[1..])
  }

  function EncodeChar(c: char): (w: seq<u16>)
    ensures 1 <= |w| <= 2
  {
    var v := c as int;
    if v < 0x1_0000 then [v]
    else [0xD800 + (v - 0x1_0000) / 0x400, 0xDC00 + (v - 0x1_0000) % 0x400]
  }

  /** `str::encode_utf16`. */
  function EncodeUtf16(s: string): seq<u16> {
    if s == "" then [] else EncodeChar(s[0]) + EncodeUtf16(s[1..])
  }

  function Utf16Le(s: string): bytes {
    WordBytes(EncodeUtf16(s))
  }

  function Utf16LeWithNul(s: string): bytes {
    Utf16Le(s) + [0, 0]
  }

  function TrimNul(s: string): (r: string)
    ensures r <= s
    ensures r == "" || r[|r| - 1] != '\0'
  {
    if s != "" && s[|s| - 1] == '\0' then TrimNul(s[..|s| - 1]) else s
  }

  function DecodeUtf16Le(b: bytes): string {
    if |b| < 2 then "" else TrimNul(LossyUtf16(Words(b)))
  }

  lemma {:induction false} WordsOfWordBytes(w: seq<u16>)
    ensures Words(WordBytes(w)) == w
  {
    if w != [] {
      var b := WordBytes(w);
      assert b[2..] == WordBytes(w[1..]);
      WordsOfWordBytes(w[1..]);
    }
  }

  lemma {:induction false} LossyOfEncode(s: string)
    ensures LossyUtf16(EncodeUtf16(s)) == s
  {
    if s != "" {
      var w, rest := EncodeChar(s[0]), EncodeUtf16(s[1..]);
      LossyOfEncode(s[1..]);
      assert (w + rest)[|w|..] == rest;
      assert (w + rest)[0] == w[0];
      if |w| == 2 {
        assert (w + rest)[1] == w[1];
      }
      assert LossyUtf16(w + rest) == [s[0]] + LossyUtf16(rest);
    }
  }

  /** Decoding inverts encoding, surrogate pairs included, up to the NULs that decoding trims. */
  lemma DecodeOfUtf16Le(s: string)
    ensures DecodeUtf16Le(Utf16Le(s)) == TrimNul(s)
    ensures s == "" || s[|s| - 1] != '\0' ==> DecodeUtf16Le(Utf16Le(s)) == s
  {
    WordsOfWordBytes(EncodeUtf16(s));
    LossyOfEncode(s);
  }

  /** The encoding of one scalar value: one unit as it is, or two surrogates with ten bits each, lower bytes first. */
  lemma Utf16LeOfChar(c: char)
    ensures var v := c as int;
            Utf16Le([c]) ==
            if v < 0x1_0000 then [v % 256, v / 256]
            else
              var high, low := 0xD800 + (v - 0x1_0000) / 0x400, 0xDC00 + (v - 0x1_0000) % 0x400;
              [high % 256, high / 256, low % 256, low / 256]
  {
    var w := EncodeChar(c);
    assert [c][1..] == "" && EncodeUtf16([c]) == w + [];
    assert w + [] == w;
    if |w| == 2 {
      assert w[1..] == [w[1]] && w[1..][1..] == [];
      assert WordBytes(w[1..]) == [w[1] % 256, w[1] / 256] + WordBytes([]);
    } else {
      assert w[1..] == [];
    }
  }

  /** Strings are encoded character by character. */
  lemma Utf16LeAppends(s: string, t: string)
    ensures Utf16Le(s + t) == Utf16Le(s) + Utf16Le(t)
  {
    EncodeAppends(s, t);
    WordBytesAppends(EncodeUtf16(s), EncodeUtf16(t));
  }

  // ---------- Text that is not well-formed ----------

  /** A piece of a unit sequence: an encoded scalar value, or a surrogate that is part of no pair. */
  datatype Piece = Scalar(c: char) | Lone(unit: u16)

  function PieceUnits(x: Piece): (w: seq<u16>)
    ensures |w| > 0
  {
    match x
    case Scalar(c) => EncodeChar(c)
    case Lone(u) => [u]
  }

  function Units(xs: seq<Piece>): seq<u16> {
    if xs == [] then [] else PieceUnits(xs[0]) + Units(xs[1..])
  }

  /** Lone pieces are surrogates, and no two of them in a row make a pair. */
  predicate WellCut(xs: seq<Piece>) {
    && (forall i :: 0 <= i < |xs| && xs[i].Lone? ==> IsHigh(xs[i].unit) || IsLow(xs[i].unit))
    && (forall i :: 0 <= i < |xs| - 1 && xs[i].Lone? && xs[i + 1].Lone? ==>
          !(IsHigh(xs[i].unit) && IsLow(xs[i + 1].unit)))
  }

  /** Every scalar value as it is, U+FFFD for every lone surrogate. */
  function PieceText(xs: seq<Piece>): (s: string)
    ensures |s| == |xs|
    ensures forall i :: 0 <= i < |xs| ==> s[i] == if xs[i].Scalar? then xs[i].c else '\U{FFFD}'
  {
    seq(|xs|, i requires 0 <= i < |xs| => if xs[i].Scalar? then xs[i].c else '\U{FFFD}')
  }

  /**
   Decoding units, well-formed or not, gives `s` exactly when they can be cut into scalar values
   and lone surrogates that read as `s`.
   */
  lemma LossyExact(w: seq<u16>, s: string)
    ensures LossyUtf16(w) == s <==> exists xs :: WellCut(xs) && w == Units(xs) && s == PieceText(xs)
  {
    var xs := Cut(w);
    forall xs | WellCut(xs) && w == Units(xs)
      ensures LossyUtf16(w) == PieceText(xs)
    {
      LossyOfUnits(xs);
    }
  }

  lemma {:induction false} Cut(w: seq<u16>) returns (xs: seq<Piece>)
    ensures WellCut(xs) && w == Units(xs) && LossyUtf16(w) == PieceText(xs)
    decreases |w|
  {
    hide WellCut, PieceText;
    if w == [] {
      xs := [];
      NoPieces();
    } else {
      var x := FirstPiece(w);
      var n := |PieceUnits(x)|;
      var rest := Cut(w[n..]);
      xs := [x] + rest;
      HeadOfUnits(rest);
      assert x.Lone? && IsHigh(x.unit) && rest != [] && rest[0].Lone? ==> w[1] == rest[0].unit;
      CutFirst(w, x, rest);
    }
  }

  lemma NoPieces()
    ensures WellCut([]) && PieceText([]) == ""
  {
  }

  lemma CutFirst(w: seq<u16>, x: Piece, rest: seq<Piece>)
    requires WellCut(rest) && w == PieceUnits(x) + Units(rest)
    requires x.Lone? ==> IsHigh(x.unit) || IsLow(x.unit)
    requires x.Lone? && rest != [] && rest[0].Lone? ==> !(IsHigh(x.unit) && IsLow(rest[0].unit))
    ensures WellCut([x] + rest) && w == Units([x] + rest)
    ensures PieceText([x] + rest) == PieceText([x]) + PieceText(rest)
  {
    assert ([x] + rest)[1..] == rest;
  }

  lemma EncodeJoined(high: u16, low: u16)
    requires IsHigh(high) && IsLow(low)
    ensures EncodeChar(JoinPair(high, low)) == [high, low]
  {
    var v := JoinPair(high, low) as int;
    assert v - 0x1_0000 == (high - 0xD800) * 0x400 + (low - 0xDC00);
  }

  /** The first piece of a unit sequence. */
  lemma FirstPiece(w: seq<u16>) returns (x: Piece)
    requires w != []
    ensures |PieceUnits(x)| <= |w| && w[..|PieceUnits(x)|] == PieceUnits(x)
    ensures LossyUtf16(w) == PieceText([x]) + LossyUtf16(w[|PieceUnits(x)|..])
    ensures x.Lone? ==> (IsHigh(x.unit) || IsLow(x.unit)) && (IsHigh(x.unit) && |w| > 1 ==> !IsLow(w[1]))
  {
    hide JoinPair, EncodeChar;
    if IsHigh(w[0]) && |w| > 1 && IsLow(w[1]) {
      x := Scalar(JoinPair(w[0], w[1]));
      EncodeJoined(w[0], w[1]);
      assert w[..2] == [w[0], w[1]];
      assert PieceText([x]) == [x.c];
    } else if IsHigh(w[0]) || IsLow(w[0]) {
      x := Lone(w[0]);
      assert PieceText([x]) == [REPLACEMENT];
    } else {
      x := Scalar(w[0] as char);
      EncodeUnit(w[0]);
      assert PieceText([x]) == [x.c];
    }
  }

  lemma EncodeUnit(u: u16)
    requires !IsHigh(u) && !IsLow(u)
    ensures EncodeChar(u as char) == [u]
  {
  }

  /** A lone low surrogate at the front of the units is the first piece. */
  lemma HeadOfUnits(xs: seq<Piece>)
    ensures xs == [] <==> Units(xs) == []
    ensures xs != [] && xs[0].Lone? ==> Units(xs)[0] == xs[0].unit
    ensures xs != [] && IsLow(Units(xs)[0]) ==> xs[0].Lone?
  {
  }

  lemma {:induction false} LossyOfUnits(xs: seq<Piece>)
    requires WellCut(xs)
    ensures LossyUtf16(Units(xs)) == PieceText(xs)
  {
    if xs != [] {
      LossyOfUnits(xs[1..]);
      HeadOfUnits(xs[1..]);
      LossyOfFirst(xs[0], Units(xs[1..]));
      assert PieceText(xs) == PieceText([xs[0]]) + PieceText(xs[1..]);
    }
  }

  /** A piece in front of units with which it makes no pair is decoded by itself. */
  lemma LossyOfFirst(x: Piece, w: seq<u16>)
    requires x.Lone? ==> (IsHigh(x.unit) || IsLow(x.unit)) && !(IsHigh(x.unit) && w != [] && IsLow(w[0]))
    ensures LossyUtf16(PieceUnits(x) + w) == PieceText([x]) + LossyUtf16(w)
  {
    var all := PieceUnits(x) + w;
    assert all[|PieceUnits(x)|..] == w;
    match x {
      case Lone(u) =>
        assert all[0] == u && (w != [] ==> all[1] == w[0]);
        assert PieceText([x]) == [REPLACEMENT];
      case Scalar(c) =>
        LossyOfEncode([c]);
        assert PieceText([x]) == [c];
        if |EncodeChar(c)| == 2 {
          assert all[0] == EncodeChar(c)[0] && all[1] == EncodeChar(c)[1];
        } else {
          assert all[0] == EncodeChar(c)[0];
        }
    }
  }

  /** Whole units are read lower byte first, and an odd last byte is dropped. */
  lemma {:induction false} WordsAt(b: bytes, i: nat)
    requires 2 * i + 1 < |b|
    ensures Words(b)[i] == b[2 * i] as int + 256 * b[2 * i + 1] as int
  {
    if i > 0 {
      WordsAt(b[2..], i - 1);
    }
  }

  /** The two zero bytes that end a SID are its encoded NUL character. */
  lemma NulIsEncoded(s: string)
    ensures Utf16LeWithNul(s) == Utf16Le(s + "\0")
  {
    EncodeAppends(s, "\0");
    assert "\0"[1..] == "";
    assert EncodeUtf16("\0") == [0];
    WordBytesAppends(EncodeUtf16(s), [0]);
    assert WordBytes([0]) == [0, 0];
  }

  lemma {:induction false} EncodeAppends(s: string, t: string)
    ensures EncodeUtf16(s + t) == EncodeUtf16(s) + EncodeUtf16(t)
  {
    if s == "" {
      assert s + t == t;
    } else {
      assert (s + t)[1..] == s[1..] + t;
      EncodeAppends(s[1..], t);
    }
  }

  lemma {:induction false} WordBytesAppends(a: seq<u16>, b: seq<u16>)
    ensures WordBytes(a + b) == WordBytes(a) + WordBytes(b)
  {
    if a == [] {
      assert a + b == b;
    } else {
      assert (a + b)[1..] == a[1..] + b;
      WordBytesAppends(a[1..], b);
    }
  }

  /** No two strings share a NUL-terminated encoding. */
  lemma Utf16LeWithNulInjective(s: string, t: string)
    requires Utf16LeWithNul(s) == Utf16LeWithNul(t)
    ensures s == t
  {
    var a, b := Utf16LeWithNul(s), Utf16LeWithNul(t);
    assert Utf16Le(s) == a[..|a| - 2] && Utf16Le(t) == b[..|b| - 2];
    WordsOfWordBytes(EncodeUtf16(s));
    WordsOfWordBytes(EncodeUtf16(t));
    LossyOfEncode(s);
    LossyOfEncode(t);
  }

  lemma {:induction false} WordsAppendNul(b: bytes)
    requires |b| % 2 == 0
    ensures Words(b + [0, 0]) == Words(b) + [0]
  {
    if b == [] {
      assert b + [0, 0] == [0, 0];
    } else {
      assert (b + [0, 0])[2..] == b[2..] + [0, 0];
      WordsAppendNul(b[2..]);
    }
  }

  lemma {:induction false} LossyAppendNul(w: seq<u16>)
    ensures LossyUtf16(w + [0]) == LossyUtf16(w) + "\0"
    decreases |w|
  {
    if w == [] {
      assert w + [0] == [0];
      assert LossyUtf16([0]) == "\0" + LossyUtf16([]);
    } else {
      assert (w + [0])[0] == w[0] && (w + [0])[1..] == w[1..] + [0];
      LossyAppendNul(w[1..]);
      if |w| > 1 {
        assert (w + [0])[2..] == w[2..] + [0] && (w + [0])[1] == w[1];
        LossyAppendNul(w[2..]);
      }
    }
  }

  lemma NulPairIgnored(b: bytes)
    requires |b| % 2 == 0
    ensures DecodeUtf16Le(b + [0, 0]) == DecodeUtf16Le(b)
  {
    WordsAppendNul(b);
    var s := LossyUtf16(Words(b));
    LossyAppendNul(Words(b));
    assert (s + "\0")[..|s|] == s;
  }

  /** Trailing NUL pairs never change what whole units decode to. */
  lemma {:induction false} NulPairsIgnored(b: bytes, k: nat)
    requires |b| % 2 == 0
    ensures DecodeUtf16Le(b + Zeros(2 * k)) == DecodeUtf16Le(b)
  {
    hide DecodeUtf16Le;
    if k == 0 {
      assert b + Zeros(0) == b;
    } else {
      assert Zeros(2 * k) == Zeros(2 * k - 2) + [0, 0];
      assert b + Zeros(2 * k) == (b + Zeros(2 * k - 2)) + [0, 0];
      NulPairIgnored(b + Zeros(2 * k - 2));
      NulPairsIgnored(b, k - 1);
    }
  }

  /** `b` is the encoding of `s`, behind which any number of NULs may stand; `s` itself does not end in one. */
  ghost predicate StoresText(b: bytes, s: string) {
    && !EndsInNul(s)
    && exists k: nat :: b == Utf16Le(s) + Zeros(2 * k)
  }

  /** A stored text comes back unchanged. */
  lemma DecodeOfStored(b: bytes, s: string)
    requires StoresText(b, s)
    ensures DecodeUtf16Le(b) == s
  {
    var k: nat :| b == Utf16Le(s) + Zeros(2 * k);
    NulPairsIgnored(Utf16Le(s), k);
    DecodeOfUtf16Le(s);
  }

  function Nuls(k: nat): (s: string)
    ensures |s| == k
  {
    seq(k, _ => '\0')
  }

  predicate EndsInNul(s: string) {
    s != "" && s[|s| - 1] == '\0'
  }

  lemma {:induction false} TrimNulCut(s: string) returns (k: nat)
    ensures s == TrimNul(s) + Nuls(k)
  {
    if EndsInNul(s) {
      k := TrimNulCut(s[..|s| - 1]);
      assert Nuls(k + 1) == Nuls(k) + "\0";
      k := k + 1;
    } else {
      k := 0;
    }
  }

  lemma {:induction false} TrimBeforeNuls(s: string, k: nat)
    requires !EndsInNul(s)
    ensures TrimNul(s + Nuls(k)) == s
  {
    if k == 0 {
      assert s + Nuls(0) == s;
    } else {
      assert (s + Nuls(k))[..|s| + k - 1] == s + Nuls(k - 1);
      TrimBeforeNuls(s, k - 1);
    }
  }

  /** Trimming cuts off all NULs at the end and nothing else. */
  lemma TrimNulExact(s: string, t: string)
    ensures TrimNul(s) == t <==> !EndsInNul(t) && exists k: nat :: s == t + Nuls(k)
  {
    var k := TrimNulCut(s);
    forall k: nat | !EndsInNul(t) && s == t + Nuls(k)
      ensures TrimNul(s) == t
    {
      TrimBeforeNuls(t, k);
    }
  }

  /** The units of `b`: pairs of bytes, the lower one first; an odd last byte is dropped. */
  predicate AreUnits(b: bytes, w: seq<u16>) {
    |w| == |b| / 2 && forall i :: 0 <= i < |w| ==> w[i] == b[2 * i] as int + 256 * b[2 * i + 1] as int
  }

  lemma WordsExact(b: bytes, w: seq<u16>)
    ensures Words(b) == w <==> AreUnits(b, w)
  {
    forall i | 0 <= i < |b| / 2
      ensures Words(b)[i] == b[2 * i] as int + 256 * b[2 * i + 1] as int
    {
      WordsAt(b, i);
    }
  }

  /**
   Stored text reads as `s` exactly when its units can be cut into scalar values and lone surrogates
   that read as `s` and NULs behind it, and `s` does not end in NUL.
   */
  lemma DecodeExact(b: bytes, s: string)
    ensures DecodeUtf16Le(b) == s <==>
            !EndsInNul(s) &&
            exists xs, k: nat :: WellCut(xs) && AreUnits(b, Units(xs)) && PieceText(xs) == s + Nuls(k)
  {
    hide WellCut, Units, PieceText, AreUnits, LossyUtf16;
    var text := LossyUtf16(Words(b));
    WordsExact(b, Words(b));
    assert DecodeUtf16Le(b) == TrimNul(text) by {
      ShortIsEmpty(b);
    }
    TrimNulExact(text, s);
    LossyExact(Words(b), text);
    forall xs, k: nat | WellCut(xs) && AreUnits(b, Units(xs)) && PieceText(xs) == s + Nuls(k)
      ensures text == s + Nuls(k)
    {
      WordsExact(b, Units(xs));
      LossyExact(Words(b), PieceText(xs));
    }
  }

  lemma ShortIsEmpty(b: bytes)
    ensures |b| < 2 ==> TrimNul(LossyUtf16(Words(b))) == ""
  {
  }
}
