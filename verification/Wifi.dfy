/** The pre-shared key of a WLAN profile (`core/src/wifi.rs`). */
module Wifi {
  import opened Bytes
  import opened Results
  import opened Primitives
  import opened Decrypt
  import opened Hex

  const OPEN := "<keyMaterial>"
  const CLOSE := "</keyMaterial>"

  predicate At(s: string, needle: string, i: nat) {
    i + |needle| <= |s| && s[i..i + |needle|] == needle
  }

  /** `str::find` from position `i` on: the first occurrence. */
  function FindFrom(s: string, needle: string, i: nat): (r: Option<nat>)
    ensures r.Some? ==> i <= r.value && At(s, needle, r.value)
    ensures r.Some? ==> forall k :: i <= k < r.value ==> !At(s, needle, k)
    ensures r.None? ==> forall k :: i <= k ==> !At(s, needle, k)
    decreases |s| + 1 - i
  {
    if i + |needle| > |s| then None
    else if At(s, needle, i) then Some(i)
    else FindFrom(s, needle, i + 1)
  }

  /** The Unicode property `White_Space`. */
  predicate IsWhite(c: char) {
    var v := c as int;
    || 0x09 <= v <= 0x0D || v == 0x20 || v == 0x85 || v == 0xA0 || v == 0x1680
    || 0x2000 <= v <= 0x200A || v == 0x2028 || v == 0x2029 || v == 0x202F || v == 0x205F || v == 0x3000
  }

  /** The 25 code points of the Unicode property `White_Space`. */
  lemma WhiteSpaceExact(c: char)
    ensures IsWhite(c) <==>
            c in ['\t', '\n', '\U{0B}', '\U{0C}', '\r', ' ', '\U{85}', '\U{A0}', '\U{1680}', '\U{2000}', '\U{2001}',
                  '\U{2002}', '\U{2003}', '\U{2004}', '\U{2005}', '\U{2006}', '\U{2007}', '\U{2008}', '\U{2009}',
                  '\U{200A}', '\U{2028}', '\U{2029}', '\U{202F}', '\U{205F}', '\U{3000}']
  {
  }

  predicate AllWhite(s: string) {
    forall i :: 0 <= i < |s| ==> IsWhite(s[i])
  }

  function TrimStart(s: string): string {
    if s != "" && IsWhite(s[0]) then TrimStart(s[1..]) else s
  }

  function TrimEnd(s: string): string {
    if s != "" && IsWhite(s[|s| - 1]) then TrimEnd(s[..|s| - 1]) else s
  }

  /** The trimmed text of the first `<keyMaterial>` element. */
  function ExtractKeyMaterial(xml: string): Option<string> {
    match FindFrom(xml, OPEN, 0)
    case None => None
    case Some(i) =>
      var rest := xml[i + |OPEN|..];
      match FindFrom(rest, CLOSE, 0)
      case None => None
      case Some(end) => Some(TrimEnd(TrimStart(rest[..end])))
  }

  /** The needle behind `s` is the first one: none begins in `s`, not even with its end behind it. */
  predicate NoneIn(s: string, needle: string) {
    forall i :: 0 <= i < |s| ==> !At(s + needle, needle, i)
  }

  /** `inner` between white space is `text`, which neither begins nor ends with white space. */
  ghost predicate Surrounded(inner: string, text: string) {
    && (text == "" || (!IsWhite(text[0]) && !IsWhite(text[|text| - 1])))
    && exists lead, trail :: AllWhite(lead) && AllWhite(trail) && inner == lead + text + trail
  }

  /** A text without white space at its ends and without a tag. */
  predicate PlainText(s: string) {
    forall i :: 0 <= i < |s| ==> !IsWhite(s[i]) && s[i] != '<'
  }

  lemma {:induction false} TrimStartWhite(white: string, s: string)
    requires AllWhite(white) && (s == "" || !IsWhite(s[0]))
    ensures TrimStart(white + s) == s
  {
    if white == "" {
      assert white + s == s;
    } else {
      assert (white + s)[1..] == white[1..] + s;
      TrimStartWhite(white[1..], s);
    }
  }

  lemma {:induction false} TrimEndWhite(s: string, white: string)
    requires AllWhite(white) && (s == "" || !IsWhite(s[|s| - 1]))
    ensures TrimEnd(s + white) == s
  {
    if white == "" {
      assert s + white == s;
    } else {
      assert (s + white)[..|s + white| - 1] == s + white[..|white| - 1];
      TrimEndWhite(s, white[..|white| - 1]);
    }
  }

  lemma {:induction false} TrimStartCut(s: string) returns (lead: string)
    ensures AllWhite(lead) && s == lead + TrimStart(s)
    ensures TrimStart(s) == "" || !IsWhite(TrimStart(s)[0])
  {
    if s != "" && IsWhite(s[0]) {
      var rest := TrimStartCut(s[1..]);
      lead := [s[0]] + rest;
    } else {
      lead := "";
    }
  }

  lemma {:induction false} TrimEndCut(s: string) returns (trail: string)
    ensures AllWhite(trail) && s == TrimEnd(s) + trail
    ensures TrimEnd(s) == "" || !IsWhite(TrimEnd(s)[|TrimEnd(s)| - 1])
  {
    if s != "" && IsWhite(s[|s| - 1]) {
      var rest := TrimEndCut(s[..|s| - 1]);
      trail := rest + [s[|s| - 1]];
    } else {
      trail := "";
    }
  }

  /** Trimming gives the one text that stands between white space. */
  lemma TrimExact(inner: string, text: string)
    ensures TrimEnd(TrimStart(inner)) == text <==> Surrounded(inner, text)
  {
    if TrimEnd(TrimStart(inner)) == text {
      var lead := TrimStartCut(inner);
      var trail := TrimEndCut(TrimStart(inner));
      assert inner == lead + text + trail;
    }
    if Surrounded(inner, text) {
      var lead, trail :| AllWhite(lead) && AllWhite(trail) && inner == lead + text + trail;
      TrimSurrounded(lead, text, trail);
    }
  }

  lemma TrimSurrounded(lead: string, s: string, trail: string)
    requires AllWhite(lead) && AllWhite(trail)
    requires s == "" || (!IsWhite(s[0]) && !IsWhite(s[|s| - 1]))
    ensures TrimEnd(TrimStart(lead + s + trail)) == s
  {
    if s == "" {
      assert lead + s + trail == (lead + trail) + "";
      TrimStartWhite(lead + trail, "");
    } else {
      assert lead + s + trail == lead + (s + trail);
      TrimStartWhite(lead, s + trail);
      TrimEndWhite(s, trail);
    }
  }

  lemma FoundAt(s: string, needle: string, i: nat)
    requires At(s, needle, i) && forall k :: 0 <= k < i ==> !At(s, needle, k)
    ensures FindFrom(s, needle, 0) == Some(i)
  {
  }

  /** A needle is found behind `pre` exactly when it is the first one there. */
  lemma FindExact(pre: string, needle: string, rest: string)
    ensures FindFrom(pre + needle + rest, needle, 0) == Some(|pre|) <==> NoneIn(pre, needle)
  {
    var s := pre + needle + rest;
    assert s[|pre|..|pre| + |needle|] == needle;
    forall k | 0 <= k < |pre|
      ensures At(s, needle, k) <==> At(pre + needle, needle, k)
    {
      assert s[k..k + |needle|] == (pre + needle)[k..k + |needle|];
    }
    if NoneIn(pre, needle) {
      FoundAt(s, needle, |pre|);
    }
  }

  /** `inner` stands between the first opening tag and the first closing tag behind it. */
  predicate FirstElement(xml: string, pre: string, inner: string, post: string) {
    && xml == pre + "<keyMaterial>" + (inner + "</keyMaterial>" + post)
    && NoneIn(pre, "<keyMaterial>") && NoneIn(inner, "</keyMaterial>")
  }

  /** The text of an element is found exactly when it stands, between white space, in the first one. */
  lemma ExtractExact(xml: string, text: string)
    ensures ExtractKeyMaterial(xml) == Some(text) <==>
            exists pre, inner, post :: FirstElement(xml, pre, inner, post) && Surrounded(inner, text)
  {
    hide FindFrom, NoneIn, Surrounded;
    if ExtractKeyMaterial(xml) == Some(text) {
      var i := FindFrom(xml, OPEN, 0).value;
      var rest := xml[i + |OPEN|..];
      var end := FindFrom(rest, CLOSE, 0).value;
      var pre, inner, post := xml[..i], rest[..end], rest[end + |CLOSE|..];
      CutAt(xml, OPEN, i);
      CutAt(rest, CLOSE, end);
      FindExact(pre, OPEN, rest);
      FindExact(inner, CLOSE, post);
      TrimExact(inner, text);
      assert FirstElement(xml, pre, inner, post);
    }
    forall pre, inner, post | FirstElement(xml, pre, inner, post) && Surrounded(inner, text)
      ensures ExtractKeyMaterial(xml) == Some(text)
    {
      ExtractOfPlanted(pre, inner, text, post);
    }
  }

  lemma CutAt(s: string, needle: string, i: nat)
    requires At(s, needle, i)
    ensures s == s[..i] + needle + s[i + |needle|..]
  {
    assert s == s[..i] + s[i..i + |needle|] + s[i + |needle|..];
  }

  /** Text planted in the first element of any XML is found, whatever white space surrounds it. */
  lemma ExtractOfPlanted(pre: string, inner: string, text: string, post: string)
    requires NoneIn(pre, OPEN) && NoneIn(inner, CLOSE) && Surrounded(inner, text)
    ensures ExtractKeyMaterial(pre + OPEN + (inner + CLOSE + post)) == Some(text)
  {
    hide FindFrom, NoneIn, Surrounded;
    var rest := inner + CLOSE + post;
    var xml := pre + OPEN + rest;
    FindExact(pre, OPEN, rest);
    assert xml[|pre| + |OPEN|..] == rest;
    FindExact(inner, CLOSE, post);
    assert rest[..|inner|] == inner;
    TrimExact(inner, text);
  }

  /** Text without a tag, between white space, holds no closing tag and is what trimming gives. */
  lemma PlainSurrounded(lead: string, text: string, trail: string)
    requires AllWhite(lead) && AllWhite(trail) && PlainText(text)
    ensures NoneIn(lead + text + trail, CLOSE) && Surrounded(lead + text + trail, text)
  {
    var inner := lead + text + trail;
    forall i | 0 <= i < |inner|
      ensures !At(inner + CLOSE, CLOSE, i)
    {
      assert (inner + CLOSE)[i] == inner[i] != '<' == CLOSE[0];
    }
  }

  /** Spaces, tabs and line ends of any kind around the text do not matter. */
  lemma ExtractFromLines(pre: string, lead: string, text: string, trail: string, post: string)
    requires NoneIn(pre, "<keyMaterial>") && PlainText(text)
    requires forall c :: c in lead + trail ==> c in [' ', '\t', '\r', '\n']
    ensures ExtractKeyMaterial(pre + "<keyMaterial>" + (lead + text + trail + "</keyMaterial>" + post)) == Some(text)
  {
    forall i | 0 <= i < |lead|
      ensures IsWhite(lead[i])
    {
      assert lead[i] in lead + trail;
    }
    forall i | 0 <= i < |trail|
      ensures IsWhite(trail[i])
    {
      assert trail[i] in lead + trail;
    }
    PlainSurrounded(lead, text, trail);
    ExtractOfPlanted(pre, lead + text + trail, text, post);
  }

  /** The bytes before the first NUL. */
  function UpToNul(s: bytes): (r: bytes)
    ensures r <= s && 0 !in r
    ensures |r| < |s| ==> s[|r|] == 0
  {
    if s == [] || s[0] == 0 then [] else [s[0]] + UpToNul(s[1..])
  }

  /** A NUL-terminated string is cut at its end exactly when it holds no NUL before. */
  lemma UpToNulExact(s: bytes, t: bytes)
    ensures UpToNul(s + [0] + t) == s <==> 0 !in s
  {
    if 0 !in s {
      UpToNulOf(s, t);
    }
  }

  lemma {:induction false} UpToNulOf(s: bytes, t: bytes)
    requires 0 !in s
    ensures UpToNul(s + [0] + t) == s
  {
    if s == [] {
      assert s + [0] + t == [0] + t;
    } else {
      assert s + [0] + t == [s[0]] + (s[1..] + [0] + t);
      UpToNulOf(s[1..], t);
    }
  }

  function OpenWlanKeyMaterial(p: Primitives, lib: Library, text: string, masterKey: bytes): Result<string> {
    match HexBytes(AsBytes(text))
    case None => Err(InvalidHex)
    case Some(blobBytes) =>
      var clear :- OpenBytes(p, blobBytes, masterKey, None);
      match lib.utf8(UpToNul(clear))
      case None => Err(Utf16Error)
      case Some(psk) => Ok(psk)
  }

  /** The decoder as it runs: digits, blob, cleartext, the bytes before the first NUL, text. */
  method DecryptWlanKeyMaterial(p: Primitives, lib: Library, text: string, masterKey: bytes) returns (r: Result<string>)
    ensures r == OpenWlanKeyMaterial(p, lib, text, masterKey)
  {
    hide OpenBytes;
    var blobBytes := WlanHexDecode(text);
    if blobBytes.Err? {
      return Err(blobBytes.error);
    }
    var clear := ParseAndDecrypt(p, blobBytes.value, masterKey, None);
    if clear.Err? {
      return Err(clear.error);
    }
    var psk := lib.utf8(UpToNul(clear.value));
    r := if psk.Some? then Ok(psk.value) else Err(Utf16Error);
  }
}
