/**
 Text as the crates see it: a `string` is a sequence of Unicode scalar values (a Rust `str`),
 `Utf8` is its byte form (`as_bytes`), and `Trim` is Rust's `str::trim` over the Unicode
 White_Space characters.
 */
module Text {

  newtype byte = x: int | 0 <= x < 256

  type Bytes = seq<byte>

  const DOT: byte := 0x2E

  // ---- Whitespace and trimming ------------------------------------------------

  /** `char::is_whitespace`: the Unicode White_Space property. */
  predicate IsWhitespace(c: char) {
    var n := c as int;
    || 0x09 <= n <= 0x0D || n == 0x20 || n == 0x85 || n == 0xA0 || n == 0x1680
    || 0x2000 <= n <= 0x200A || n == 0x2028 || n == 0x2029 || n == 0x202F
    || n == 0x205F || n == 0x3000
  }

  /** `char::is_control`: the Unicode general category Cc. */
  predicate IsControl(c: char) {
    var n := c as int;
    n <= 0x1F || 0x7F <= n <= 0x9F
  }

  /** The twenty-five White_Space characters, one by one. */
  lemma WhitespaceExact(c: char)
    ensures IsWhitespace(c) <==> c in {
      '\U{0009}', '\U{000A}', '\U{000B}', '\U{000C}', '\U{000D}', '\U{0020}', '\U{0085}', '\U{00A0}',
      '\U{1680}', '\U{2000}', '\U{2001}', '\U{2002}', '\U{2003}', '\U{2004}', '\U{2005}', '\U{2006}',
      '\U{2007}', '\U{2008}', '\U{2009}', '\U{200A}', '\U{2028}', '\U{2029}', '\U{202F}', '\U{205F}',
      '\U{3000}'}
  {
  }

  predicate IsBlank(s: string) {
    forall i :: 0 <= i < |s| ==> IsWhitespace(s[i])
  }

  /** Neither end is whitespace; the empty string qualifies. */
  predicate IsTrimmed(s: string) {
    s != "" ==> !IsWhitespace(s[0]) && !IsWhitespace(s[|s| - 1])
  }

  function TrimStart(s: string): string {
    if s != "" && IsWhitespace(s[0]) then TrimStart(s[1..]) else s
  }

  function TrimEnd(s: string): string {
    if s != "" && IsWhitespace(s[|s| - 1]) then TrimEnd(s[..|s| - 1]) else s
  }

  function Trim(s: string): string {
    TrimEnd(TrimStart(s))
  }

  /** `core` with whitespace on either side. */
  ghost predicate IsPadded(raw: string, core: string) {
    exists left, right :: IsBlank(left) && IsBlank(right) && raw == left + core + right
  }

  lemma {:induction false} TrimStartSplits(s: string) returns (left: string)
    ensures IsBlank(left) && s == left + TrimStart(s)
    ensures TrimStart(s) != "" ==> !IsWhitespace(TrimStart(s)[0])
  {
    if s != "" && IsWhitespace(s[0]) {
      assert s == [s[0]] + s[1..];
      var rest := TrimStartSplits(s[1..]);
      left := [s[0]] + rest;
      assert TrimStart(s) == TrimStart(s[1..]);
      assert s == left + TrimStart(s);
    } else {
      left := "";
    }
  }

  lemma {:induction false} TrimEndSplits(s: string) returns (right: string)
    ensures IsBlank(right) && s == TrimEnd(s) + right
    ensures TrimEnd(s) != "" ==> !IsWhitespace(TrimEnd(s)[|TrimEnd(s)| - 1])
  {
    if s != "" && IsWhitespace(s[|s| - 1]) {
      var rest := TrimEndSplits(s[..|s| - 1]);
      right := rest + [s[|s| - 1]];
      assert s == s[..|s| - 1] + [s[|s| - 1]];
    } else {
      right := "";
    }
  }

  lemma {:induction false} TrimStartSkipsBlank(left: string, s: string)
    requires IsBlank(left)
    ensures TrimStart(left + s) == TrimStart(s)
  {
    if left == "" {
      assert left + s == s;
    } else {
      assert (left + s)[1..] == left[1..] + s;
      TrimStartSkipsBlank(left[1..], s);
    }
  }

  lemma {:induction false} TrimEndSkipsBlank(s: string, right: string)
    requires IsBlank(right)
    ensures TrimEnd(s + right) == TrimEnd(s)
  {
    if right == "" {
      assert s + right == s;
    } else {
      assert (s + right)[..|s + right| - 1] == s + right[..|right| - 1];
      TrimEndSkipsBlank(s, right[..|right| - 1]);
    }
  }

  /** `Trim` finds exactly the trimmed core: the core of any padding, and no other string. */
  lemma TrimExact(raw: string, core: string)
    ensures Trim(raw) == core <==> IsTrimmed(core) && IsPadded(raw, core)
  {
    TrimGivesCore(raw);
    if IsTrimmed(core) && IsPadded(raw, core) {
      var l, r :| IsBlank(l) && IsBlank(r) && raw == l + core + r;
      TrimOfPadded(l, core, r);
    }
  }

  lemma TrimGivesCore(raw: string)
    ensures IsTrimmed(Trim(raw)) && IsPadded(raw, Trim(raw))
  {
    var left := TrimStartSplits(raw);
    var start := TrimStart(raw);
    var right := TrimEndSplits(start);
    var t := TrimEnd(start);
    assert raw == left + t + right;
    assert t != "" ==> t[0] == start[0];
  }

  lemma TrimOfPadded(l: string, core: string, r: string)
    requires IsBlank(l) && IsBlank(r) && IsTrimmed(core)
    ensures Trim(l + core + r) == core
  {
    assert l + core + r == l + (core + r);
    TrimStartSkipsBlank(l, core + r);
    if core == "" {
      assert core + r == r + "";
      TrimStartSkipsBlank(r, "");
    } else {
      assert TrimStart(core + r) == core + r;
      TrimEndSkipsBlank(core, r);
    }
  }

  lemma TrimIsTrimmed(s: string)
    ensures IsTrimmed(Trim(s)) && Trim(Trim(s)) == Trim(s)
  {
    TrimExact(s, Trim(s));
    TrimOfTrimmed(Trim(s));
  }

  lemma TrimOfTrimmed(s: string)
    requires IsTrimmed(s)
    ensures Trim(s) == s
  {
    assert s == "" + s + "";
    assert IsBlank("");
    assert IsPadded(s, s);
    TrimExact(s, s);
  }

  /** Whitespace trims to nothing, and only whitespace does. */
  lemma BlankTrims(s: string)
    ensures IsBlank(s) <==> Trim(s) == ""
  {
    TrimExact(s, "");
    if IsBlank(s) {
      assert s == s + "" + "";
      assert IsBlank("");
      assert IsPadded(s, "");
    }
  }

  // ---- UTF-8 --------------------------------------------------------------------

  /** The UTF-8 form of one scalar value. */
  function EncodeChar(c: char): (bs: Bytes)
    ensures 1 <= |bs| <= 4
  {
    var n := c as int;
    if n < 0x80 then
      [n as byte]
    else if n < 0x800 then
      [(0xC0 + n / 64) as byte, (0x80 + n % 64) as byte]
    else if n < 0x10000 then
      [(0xE0 + n / 4096) as byte, (0x80 + n / 64 % 64) as byte, (0x80 + n % 64) as byte]
    else
      [(0xF0 + n / 262144) as byte, (0x80 + n / 4096 % 64) as byte,
       (0x80 + n / 64 % 64) as byte, (0x80 + n % 64) as byte]
  }

  /** One character of each encoded length. */
  lemma EncodedExamples()
    ensures EncodeChar('.') == [0x2E] && EncodeChar('\U{00E9}') == [0xC3, 0xA9]
    ensures EncodeChar('\U{20AC}') == [0xE2, 0x82, 0xAC]
    ensures EncodeChar('\U{1F600}') == [0xF0, 0x9F, 0x98, 0x80]
  {
  }

  /** `str::as_bytes`. */
  function Utf8(s: string): Bytes {
    if s == "" then [] else EncodeChar(s[0]) + Utf8(s[1..])
  }

  lemma {:induction false} Utf8Append(a: string, b: string)
    ensures Utf8(a + b) == Utf8(a) + Utf8(b)
  {
    if a == "" {
      assert a + b == b;
    } else {
      assert (a + b)[1..] == a[1..] + b;
      Utf8Append(a[1..], b);
    }
  }

  /** The encoding is self-delimiting: the first character can be read off the bytes. */
  lemma FirstCharReadable(c: char, x: Bytes, d: char, y: Bytes)
    requires EncodeChar(c) + x <= EncodeChar(d) + y || EncodeChar(c) + x == EncodeChar(d) + y
    ensures c == d && x <= y
  {
    var cs, ds := EncodeChar(c), EncodeChar(d);
    var left, right := cs + x, ds + y;
    assert forall k :: 0 <= k < |left| ==> left[k] == right[k];
    assert left[0] == cs[0] && right[0] == ds[0];
    assert |cs| == |ds|;
    assert forall k :: 0 <= k < |cs| ==> cs[k] == left[k] && ds[k] == right[k];
    assert cs == ds;
    SameCharOfSameBytes(c, d);
    assert forall k :: 0 <= k < |x| ==> x[k] == left[|cs| + k] && y[k] == right[|cs| + k];
  }

  /** The scalar value that the bytes of one character spell. */
  function DecodeChar(bs: Bytes): int
    requires 1 <= |bs| <= 4
  {
    if |bs| == 1 then bs[0] as int
    else if |bs| == 2 then (bs[0] as int - 0xC0) * 64 + (bs[1] as int - 0x80)
    else if |bs| == 3 then
      (bs[0] as int - 0xE0) * 4096 + (bs[1] as int - 0x80) * 64 + (bs[2] as int - 0x80)
    else
      (bs[0] as int - 0xF0) * 262144 + (bs[1] as int - 0x80) * 4096
      + (bs[2] as int - 0x80) * 64 + (bs[3] as int - 0x80)
  }

  lemma EncodeCharDecodes(c: char)
    ensures DecodeChar(EncodeChar(c)) == c as int
  {
    var n := c as int;
    DivSplit(n, 64);
    DivSplit(n / 64, 64);
    DivSplit(n / 64 / 64, 64);
    assert n / 64 / 64 == n / 4096 && n / 4096 / 64 == n / 262144;
  }

  lemma DivSplit(n: nat, k: nat)
    requires k > 0
    ensures n == k * (n / k) + n % k
  {
  }

  lemma SameCharOfSameBytes(c: char, d: char)
    requires EncodeChar(c) == EncodeChar(d)
    ensures c == d
  {
    EncodeCharDecodes(c);
    EncodeCharDecodes(d);
  }

  /** A byte prefix of an encoding that is itself an encoding is a character prefix. */
  lemma {:induction false} Utf8Prefix(a: string, b: string)
    requires Utf8(a) <= Utf8(b)
    ensures a <= b
  {
    if a != "" {
      FirstCharReadable(a[0], Utf8(a[1..]), b[0], Utf8(b[1..]));
      Utf8Prefix(a[1..], b[1..]);
    }
  }

  lemma Utf8Injective(a: string, b: string)
    requires Utf8(a) == Utf8(b)
    ensures a == b
  {
    Utf8Prefix(a, b);
    Utf8Prefix(b, a);
  }

  /** An ASCII byte in the encoding is an ASCII character of the text, and conversely. */
  lemma {:induction false} Utf8AsciiByte(s: string, b: byte)
    requires b < 0x80
    ensures b in Utf8(s) <==> (b as int as char) in s
  {
    if s != "" {
      Utf8AsciiByte(s[1..], b);
      assert s == [s[0]] + s[1..];
      assert b in EncodeChar(s[0]) <==> s[0] == b as int as char;
    }
  }

  predicate IsAscii(s: string) {
    forall i :: 0 <= i < |s| ==> s[i] as int < 0x80
  }

  /** ASCII text is one byte a character. */
  lemma {:induction false} Utf8OfAscii(s: string)
    requires IsAscii(s)
    ensures |Utf8(s)| == |s|
    ensures forall i :: 0 <= i < |s| ==> Utf8(s)[i] as int == s[i] as int
  {
    if s != "" {
      Utf8OfAscii(s[1..]);
      forall i | 0 <= i < |s| ensures Utf8(s)[i] as int == s[i] as int {
        if i > 0 { assert Utf8(s)[i] == Utf8(s[1..])[i - 1]; }
      }
    }
  }

  /** Bytes below 0x80 throughout come only from ASCII text. */
  lemma {:induction false} AsciiOfUtf8(s: string)
    requires forall i :: 0 <= i < |Utf8(s)| ==> Utf8(s)[i] < 0x80
    ensures IsAscii(s)
  {
    if s != "" {
      var head, tail := EncodeChar(s[0]), Utf8(s[1..]);
      assert Utf8(s)[0] == head[0];
      forall i | 0 <= i < |tail| ensures tail[i] < 0x80 {
        assert tail[i] == Utf8(s)[|head| + i];
      }
      AsciiOfUtf8(s[1..]);
      assert s == [s[0]] + s[1..];
    }
  }
}
