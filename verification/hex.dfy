/**
 The crate's own base-16 codec (section 8 of RFC 4648): lower-case output, either case accepted.
 `HexText` and `HexBytes` say what the two loops compute.
 */
module Hex {
  import opened Wrappers
  import opened Text

  function HexDigit(n: byte): (c: char)
    requires n < 16
    ensures IsHexChar(c)
  {
    if n < 10 then (0x30 + n as int) as char else (0x61 + (n as int - 10)) as char
  }

  predicate IsHexChar(c: char) {
    '0' <= c <= '9' || 'a' <= c <= 'f' || 'A' <= c <= 'F'
  }

  function HexCharValue(c: char): (n: byte)
    requires IsHexChar(c)
    ensures n < 16
  {
    if c <= '9' then (c as int - 0x30) as byte
    else if c <= 'F' then (c as int - 0x41 + 10) as byte
    else (c as int - 0x61 + 10) as byte
  }

  predicate AllHex(s: string) {
    forall i :: 0 <= i < |s| ==> IsHexChar(s[i])
  }

  function LowerChar(c: char): char {
    if 'A' <= c <= 'Z' then (c as int + 32) as char else c
  }

  /** ASCII lower-casing. */
  function Lower(s: string): (t: string)
    ensures |t| == |s|
  {
    seq(|s|, i requires 0 <= i < |s| => LowerChar(s[i]))
  }

  /** Two lower-case digits a byte, the high half first. */
  function HexText(bs: Bytes): (s: string)
    ensures |s| == 2 * |bs|
  {
    seq(2 * |bs|, i requires 0 <= i < 2 * |bs| =>
      if i % 2 == 0 then HexDigit(bs[i / 2] / 16) else HexDigit(bs[i / 2] % 16))
  }

  /** The byte that each pair of digits spells, on even-length text made of hex digits only. */
  function HexBytes(s: string): Option<Bytes> {
    if |s| % 2 == 0 && AllHex(s) then
      Some(seq(|s| / 2, i requires 0 <= i < |s| / 2 => PairValue(s, i)))
    else None
  }

  function PairValue(s: string, i: nat): byte
    requires AllHex(s) && i < |s| / 2
  {
    16 * HexCharValue(s[2 * i]) + HexCharValue(s[2 * i + 1])
  }

  // ---- The loops -------------------------------------------------------------------

  /** `hex_lower`. */
  method HexLower(bytes: Bytes) returns (s: string)
    ensures s == HexText(bytes)
  {
    s := "";
    for k := 0 to |bytes|
      invariant s == HexText(bytes[..k])
    {
      var b := bytes[k];
      s := s + [HexDigit(b / 16), HexDigit(b % 16)];
      assert bytes[..k + 1] == bytes[..k] + [b];
    }
    assert bytes[..|bytes|] == bytes;
  }

  /** The closure `nibble` inside `hex_decode`. */
  function Nibble(c: byte): Option<byte> {
    if 0x30 <= c <= 0x39 then Some(c - 0x30)
    else if 0x61 <= c <= 0x66 then Some(c - 0x61 + 10)
    else if 0x41 <= c <= 0x46 then Some(c - 0x41 + 10)
    else None
  }

  lemma NibbleBits(n: byte)
    requires n < 16
    ensures n as bv8 < 16 && n as bv8 as int == n as int
    ensures (n as bv8 << 4) as int == 16 * n as int
  {
  }

  lemma OrOfDisjointIsSum(h: bv8, l: bv8)
    requires h < 16 && l < 16
    ensures (h << 4) | l == (h << 4) + l
  {
  }

  lemma SumOfHalvesFits(h: bv8, l: bv8)
    requires h < 16 && l < 16
    ensures ((h << 4) + l) as int == (h << 4) as int + l as int
  {
  }

  /** Shifting and or-ing two halves is positional notation. */
  lemma ShiftOrIsPositional(hi: byte, lo: byte)
    requires hi < 16 && lo < 16
    ensures ((hi as bv8 << 4) | lo as bv8) as int == 16 * hi as int + lo as int
  {
    NibbleBits(hi);
    NibbleBits(lo);
    OrOfDisjointIsSum(hi as bv8, lo as bv8);
    SumOfHalvesFits(hi as bv8, lo as bv8);
  }

  /** `(hi << 4) | lo` on bytes, for two nibbles. */
  method ShiftOr(hi: byte, lo: byte) returns (b: byte)
    requires hi < 16 && lo < 16
    ensures b == 16 * hi + lo
  {
    ShiftOrIsPositional(hi, lo);
    b := ((hi as bv8 << 4) | lo as bv8) as int as byte;
  }

  ghost predicate AllNibbles(bs: Bytes) {
    forall i :: 0 <= i < |bs| ==> Nibble(bs[i]).Some?
  }

  /** Text is all hex digits exactly when its bytes all are nibbles; then they line up. */
  lemma HexTextBytes(s: string)
    ensures AllHex(s) <==> AllNibbles(Utf8(s))
    ensures AllHex(s) ==> |Utf8(s)| == |s|
    ensures AllHex(s) ==> forall i :: 0 <= i < |s| ==> Nibble(Utf8(s)[i]) == Some(HexCharValue(s[i]))
  {
    var bs := Utf8(s);
    if AllHex(s) {
      assert IsAscii(s);
      Utf8OfAscii(s);
    }
    if AllNibbles(bs) {
      AsciiOfUtf8(s);
      Utf8OfAscii(s);
      forall i | 0 <= i < |s| ensures IsHexChar(s[i]) {
        assert Nibble(bs[i]).Some?;
      }
    }
  }

  /** The byte that the nibbles at `2 * i` and `2 * i + 1` make up. */
  function NibblePair(bytes: Bytes, i: nat): byte
    requires 2 * i + 1 < |bytes|
    requires Nibble(bytes[2 * i]).Some? && Nibble(bytes[2 * i + 1]).Some?
  {
    16 * Nibble(bytes[2 * i]).value + Nibble(bytes[2 * i + 1]).value
  }

  lemma NibblePairsAreHexBytes(s: string, out: Bytes)
    requires |Utf8(s)| % 2 == 0 && AllNibbles(Utf8(s)) && |out| == |Utf8(s)| / 2
    requires forall k :: 0 <= k < |out| ==> out[k] == NibblePair(Utf8(s), k)
    ensures HexBytes(s) == Some(out)
  {
    HexTextBytes(s);
    forall k | 0 <= k < |out| ensures out[k] == PairValue(s, k) {
      assert out[k] == NibblePair(Utf8(s), k);
    }
    assert HexBytes(s).value == out;
  }

  lemma NotHexBytes(s: string)
    requires |Utf8(s)| % 2 != 0 || !AllNibbles(Utf8(s))
    ensures HexBytes(s) == None
  {
    HexTextBytes(s);
  }

  /** `hex_decode`: works on the UTF-8 bytes of the text, two at a time. */
  method HexDecode(s: string) returns (r: Option<Bytes>)
    ensures r == HexBytes(s)
  {
    var bytes := Utf8(s);
    if |bytes| % 2 != 0 {
      NotHexBytes(s);
      return None;
    }
    var out := [];
    var i := 0;
    while i < |bytes|
      invariant 0 <= i <= |bytes| && i == 2 * |out|
      invariant forall k :: 0 <= k < i ==> Nibble(bytes[k]).Some?
      invariant forall k :: 0 <= k < |out| ==> out[k] == NibblePair(bytes, k)
    {
      var hi := Nibble(bytes[i]);
      if hi.None? { NotHexBytes(s); return None; }
      var lo := Nibble(bytes[i + 1]);
      if lo.None? { NotHexBytes(s); return None; }
      var b := ShiftOr(hi.value, lo.value);
      out := out + [b];
      i := i + 2;
    }
    NibblePairsAreHexBytes(s, out);
    return Some(out);
  }

  /** The digits in order, in both cases. */
  lemma HexDigitsExact(n: byte)
    requires n < 16
    ensures HexDigit(n) == "0123456789abcdef"[n]
    ensures HexCharValue("0123456789abcdef"[n]) == n == HexCharValue("0123456789ABCDEF"[n])
  {
  }

  /** High half first: the bytes 0x0F and 0xA1 are "0fa1". */
  lemma HexTextExample()
    ensures HexText([0x0F, 0xA1]) == "0fa1"
  {
    HexTextAt([0x0F, 0xA1], 0);
    HexTextAt([0x0F, 0xA1], 1);
    assert HexText([0x0F, 0xA1]) == ['0', 'f', 'a', '1'];
  }

  // ---- Laws of the codec --------------------------------------------------------------

  lemma HexDigitValue(n: byte)
    requires n < 16
    ensures HexCharValue(HexDigit(n)) == n && LowerChar(HexDigit(n)) == HexDigit(n)
  {
  }

  lemma HexTextAt(bs: Bytes, i: nat)
    requires i < |bs|
    ensures HexText(bs)[2 * i] == HexDigit(bs[i] / 16)
    ensures HexText(bs)[2 * i + 1] == HexDigit(bs[i] % 16)
  {
    assert (2 * i) / 2 == i && (2 * i + 1) / 2 == i;
  }

  lemma HexTextIsHex(bs: Bytes)
    ensures AllHex(HexText(bs)) && Lower(HexText(bs)) == HexText(bs)
  {
    var s := HexText(bs);
    forall k | 0 <= k < |s| ensures IsHexChar(s[k]) && LowerChar(s[k]) == s[k] {
      HexTextAt(bs, k / 2);
      HexDigitValue(bs[k / 2] / 16);
      HexDigitValue(bs[k / 2] % 16);
    }
  }

  /** Decoding undoes encoding. */
  lemma HexRoundTrip(bs: Bytes)
    ensures HexBytes(HexText(bs)) == Some(bs)
  {
    var s := HexText(bs);
    HexTextIsHex(bs);
    forall i | 0 <= i < |bs| ensures PairValue(s, i) == bs[i] {
      HexTextAt(bs, i);
      HexDigitValue(bs[i] / 16);
      HexDigitValue(bs[i] % 16);
    }
    assert HexBytes(s).value == bs;
  }

  /** Encoding a decoded text gives back the text, lower-cased. */
  lemma HexLowersCase(s: string)
    requires HexBytes(s).Some?
    ensures HexText(HexBytes(s).value) == Lower(s)
  {
    var bs := HexBytes(s).value;
    forall i | 0 <= i < |s| ensures HexText(bs)[i] == Lower(s)[i] {
      var k := i / 2;
      assert bs[k] == PairValue(s, k);
      assert bs[k] / 16 == HexCharValue(s[2 * k]) && bs[k] % 16 == HexCharValue(s[2 * k + 1]);
      assert HexDigit(HexCharValue(s[i])) == LowerChar(s[i]);
    }
  }

  /** A text decodes to given bytes exactly when it spells their encoding up to case. */
  lemma HexDecodesTo(s: string, bs: Bytes)
    ensures HexBytes(s) == Some(bs) <==> Lower(s) == HexText(bs)
  {
    if HexBytes(s) == Some(bs) {
      HexLowersCase(s);
    } else if Lower(s) == HexText(bs) {
      forall i | 0 <= i < |s| ensures IsHexChar(s[i]) {
        assert Lower(s)[i] == LowerChar(s[i]);
      }
      assert HexBytes(s).Some?;
      HexLowersCase(s);
      HexRoundTrip(bs);
      HexRoundTrip(HexBytes(s).value);
      assert false;
    }
  }

  /** Decodable texts decode alike exactly when they agree up to case. */
  lemma HexEqualUpToCase(s: string, t: string)
    requires HexBytes(s).Some? && HexBytes(t).Some?
    ensures HexBytes(s) == HexBytes(t) <==> Lower(s) == Lower(t)
  {
    HexLowersCase(t);
    HexDecodesTo(s, HexBytes(t).value);
  }
}
