/**
 The byte strings the two webhook schemes sign, and exactly when two of them coincide.
 */
module Framing {
  import opened Text

  datatype Scheme = Canonical | LegacyNoNonce

  /** `"{timestamp}.{nonce}.{body}"`. */
  function CanonicalString(timestamp: string, nonce: string, body: Bytes): Bytes {
    Utf8(timestamp) + [DOT] + Utf8(nonce) + [DOT] + body
  }

  /** `"{timestamp}.{body}"`. */
  function LegacyString(timestamp: string, body: Bytes): Bytes {
    Utf8(timestamp) + [DOT] + body
  }

  function SignedString(scheme: Scheme, timestamp: string, nonce: string, body: Bytes): Bytes {
    match scheme
    case Canonical => CanonicalString(timestamp, nonce, body)
    case LegacyNoNonce => LegacyString(timestamp, body)
  }

  /** What a signed string holds after the timestamp and its dot. */
  function Payload(scheme: Scheme, nonce: string, body: Bytes): Bytes {
    match scheme
    case Canonical => Utf8(nonce) + [DOT] + body
    case LegacyNoNonce => body
  }

  // ---- Splitting at the first separator ---------------------------------------------

  lemma LongerPieceHasDot(a: Bytes, x: Bytes, b: Bytes, y: Bytes)
    requires a + [DOT] + x == b + [DOT] + y && |a| < |b|
    ensures DOT in b
  {
    assert b[|a|] == (b + [DOT] + y)[|a|] == (a + [DOT] + x)[|a|];
  }

  lemma SplitUnique(a: Bytes, x: Bytes, b: Bytes, y: Bytes)
    requires DOT !in a && DOT !in b
    requires a + [DOT] + x == b + [DOT] + y
    ensures a == b && x == y
  {
    var l, r := a + [DOT] + x, b + [DOT] + y;
    if |a| < |b| {
      LongerPieceHasDot(a, x, b, y);
    } else if |b| < |a| {
      LongerPieceHasDot(b, y, a, x);
    }
    assert a == l[..|a|] && b == r[..|b|];
    assert x == l[|a| + 1..] && y == r[|b| + 1..];
  }

  lemma DotFreeBytes(s: string)
    ensures DOT in Utf8(s) <==> '.' in s
  {
    Utf8AsciiByte(s, DOT);
  }

  lemma TimestampSplits(t1: string, x: Bytes, t2: string, y: Bytes)
    requires '.' !in t1 && '.' !in t2
    ensures Utf8(t1) + [DOT] + x == Utf8(t2) + [DOT] + y <==> t1 == t2 && x == y
  {
    DotFreeBytes(t1);
    DotFreeBytes(t2);
    if Utf8(t1) + [DOT] + x == Utf8(t2) + [DOT] + y {
      SplitUnique(Utf8(t1), x, Utf8(t2), y);
      Utf8Injective(t1, t2);
    }
  }

  lemma CanonicalRegroups(timestamp: string, nonce: string, body: Bytes)
    ensures CanonicalString(timestamp, nonce, body)
            == Utf8(timestamp) + [DOT] + (Utf8(nonce) + [DOT] + body)
  {
    var head := Utf8(timestamp) + [DOT];
    Regroup(head, Utf8(nonce), [DOT]);
    Regroup(head, Utf8(nonce) + [DOT], body);
  }

  lemma SignedRegroups(scheme: Scheme, timestamp: string, nonce: string, body: Bytes)
    ensures SignedString(scheme, timestamp, nonce, body)
            == Utf8(timestamp) + [DOT] + Payload(scheme, nonce, body)
  {
    CanonicalRegroups(timestamp, nonce, body);
  }

  // ---- Any timestamp text against a dot-free one ---------------------------------------

  /** The text up to its first dot, or all of it. */
  function BeforeDot(s: string): (r: string)
    ensures '.' !in r && |r| <= |s|
    ensures if '.' in s then r + "." <= s else r == s
  {
    if s == "" || s[0] == '.' then "" else [s[0]] + BeforeDot(s[1..])
  }

  /** What follows the first dot of a message over any timestamp text. */
  function AfterDot(timestamp: string, payload: Bytes): Bytes {
    if '.' in timestamp then Utf8(timestamp[|BeforeDot(timestamp)| + 1..]) + [DOT] + payload
    else payload
  }

  lemma FirstDotSplits(timestamp: string, payload: Bytes)
    ensures Utf8(timestamp) + [DOT] + payload
            == Utf8(BeforeDot(timestamp)) + [DOT] + AfterDot(timestamp, payload)
  {
    if '.' in timestamp {
      var first, rest := BeforeDot(timestamp), timestamp[|BeforeDot(timestamp)| + 1..];
      assert timestamp == first + "." + rest;
      DottedTextBytes(first, rest, payload);
    }
  }

  lemma DottedTextBytes(first: string, rest: string, payload: Bytes)
    ensures Utf8(first + "." + rest) + [DOT] + payload
            == Utf8(first) + [DOT] + (Utf8(rest) + [DOT] + payload)
  {
    DottedBytes(first);
    Utf8Append(first + ".", rest);
    var head := Utf8(first) + [DOT];
    Regroup(head, Utf8(rest), [DOT]);
    Regroup(head, Utf8(rest) + [DOT], payload);
  }

  /**
   Two signed strings, of whatever schemes, coincide exactly when the one timestamp, which has no
   dot, is what the other has before its first dot, and the bytes after that dot are the same.
   */
  lemma SignedCoincide(s1: Scheme, t1: string, n1: string, b1: Bytes,
                       s2: Scheme, t2: string, n2: string, b2: Bytes)
    requires '.' !in t2
    ensures SignedString(s1, t1, n1, b1) == SignedString(s2, t2, n2, b2) <==>
            t2 == BeforeDot(t1) && AfterDot(t1, Payload(s1, n1, b1)) == Payload(s2, n2, b2)
  {
    SignedRegroups(s1, t1, n1, b1);
    SignedRegroups(s2, t2, n2, b2);
    FirstDotSplits(t1, Payload(s1, n1, b1));
    TimestampSplits(BeforeDot(t1), AfterDot(t1, Payload(s1, n1, b1)), t2, Payload(s2, n2, b2));
  }

  // ---- Canonical against canonical ---------------------------------------------------

  /** `long` is `short`, a dot and `rest`, and the first body starts with what `long` adds. */
  ghost predicate Absorbs(short: string, shortBody: Bytes, rest: string, long: string, longBody: Bytes) {
    long == short + "." + rest && shortBody == Utf8(rest) + [DOT] + longBody
  }

  lemma LongerPrefix(h: Bytes, x: Bytes, b: Bytes, y: Bytes)
    requires h + x == b + y && |h| <= |b|
    ensures h <= b && x == b[|h|..] + y
  {
    var all := h + x;
    assert h == all[..|h|] == b[..|h|];
    assert x == all[|h|..];
  }

  lemma DropHead(h: Bytes, x: Bytes)
    ensures (h + x)[|h|..] == x
  {
  }

  lemma DottedBytes(s: string)
    ensures Utf8(s + ".") == Utf8(s) + [DOT]
  {
    Utf8Append(s, ".");
    assert Utf8(".") == [DOT] + Utf8("");
  }

  lemma NonceBodyAbsorbed(n1: string, b1: Bytes, n2: string, b2: Bytes) returns (rest: string)
    requires Utf8(n1) + [DOT] + b1 == Utf8(n2) + [DOT] + b2
    requires |Utf8(n1)| < |Utf8(n2)|
    ensures Absorbs(n1, b1, rest, n2, b2)
  {
    DottedBytes(n1);
    Regroup(Utf8(n2), [DOT], b2);
    LongerPrefix(Utf8(n1 + "."), b1, Utf8(n2), [DOT] + b2);
    Utf8Prefix(n1 + ".", n2);
    rest := n2[|n1| + 1..];
    assert n2 == n1 + "." + rest;
    RestOfLonger(n1 + ".", rest);
    Regroup(Utf8(rest), [DOT], b2);
  }

  lemma RestOfLonger(head: string, rest: string)
    ensures Utf8(head) <= Utf8(head + rest) && Utf8(head + rest)[|Utf8(head)|..] == Utf8(rest)
  {
    Utf8Append(head, rest);
    DropHead(Utf8(head), Utf8(rest));
  }

  lemma Regroup(a: Bytes, b: Bytes, c: Bytes)
    ensures a + b + c == a + (b + c)
  {
  }

  /**
   Two canonical payloads coincide exactly when their parts do, or one nonce is the other plus a
   dotted piece taken from the other's body.
   */
  lemma PayloadsCoincide(n1: string, b1: Bytes, n2: string, b2: Bytes)
    ensures Payload(Canonical, n1, b1) == Payload(Canonical, n2, b2) <==>
            || (n1 == n2 && b1 == b2)
            || (exists rest :: Absorbs(n1, b1, rest, n2, b2))
            || (exists rest :: Absorbs(n2, b2, rest, n1, b1))
  {
    var x, y := Utf8(n1) + [DOT] + b1, Utf8(n2) + [DOT] + b2;
    if x == y {
      if |Utf8(n1)| < |Utf8(n2)| {
        var rest := NonceBodyAbsorbed(n1, b1, n2, b2);
      } else if |Utf8(n2)| < |Utf8(n1)| {
        var rest := NonceBodyAbsorbed(n2, b2, n1, b1);
      } else {
        assert Utf8(n1) == x[..|Utf8(n1)|] && Utf8(n2) == y[..|Utf8(n2)|];
        assert b1 == x[|Utf8(n1)| + 1..] && b2 == y[|Utf8(n2)| + 1..];
        Utf8Injective(n1, n2);
      }
    }
    if rest :| Absorbs(n1, b1, rest, n2, b2) {
      AbsorbedBytesEqual(n1, b1, rest, n2, b2);
    }
    if rest :| Absorbs(n2, b2, rest, n1, b1) {
      AbsorbedBytesEqual(n2, b2, rest, n1, b1);
    }
  }

  /**
   Two canonical strings over dot-free timestamps coincide exactly when the parts coincide, or
   the timestamps do and one nonce is the other plus a dotted piece taken from the other's body.
   */
  lemma CanonicalCoincide(t1: string, n1: string, b1: Bytes, t2: string, n2: string, b2: Bytes)
    requires '.' !in t1 && '.' !in t2
    ensures CanonicalString(t1, n1, b1) == CanonicalString(t2, n2, b2) <==>
            && t1 == t2
            && (|| (n1 == n2 && b1 == b2)
                || (exists rest :: Absorbs(n1, b1, rest, n2, b2))
                || (exists rest :: Absorbs(n2, b2, rest, n1, b1)))
  {
    SignedCoincide(Canonical, t1, n1, b1, Canonical, t2, n2, b2);
    PayloadsCoincide(n1, b1, n2, b2);
  }

  lemma AbsorbedBytesEqual(n1: string, b1: Bytes, rest: string, n2: string, b2: Bytes)
    requires Absorbs(n1, b1, rest, n2, b2)
    ensures Utf8(n1) + [DOT] + b1 == Utf8(n2) + [DOT] + b2
  {
    DottedBytes(n1);
    Utf8Append(n1 + ".", rest);
  }

  /** With dot-free nonces, as a UUID is, the canonical string determines all three parts. */
  lemma CanonicalInjective(t1: string, n1: string, b1: Bytes, t2: string, n2: string, b2: Bytes)
    requires '.' !in t1 && '.' !in t2 && '.' !in n1 && '.' !in n2
    requires CanonicalString(t1, n1, b1) == CanonicalString(t2, n2, b2)
    ensures t1 == t2 && n1 == n2 && b1 == b2
  {
    CanonicalCoincide(t1, n1, b1, t2, n2, b2);
    assert forall s, r: string :: '.' in s + "." + r by {
      forall s, r: string ensures '.' in s + "." + r {
        assert (s + "." + r)[|s|] == '.';
      }
    }
  }

  // ---- Canonical against legacy ---------------------------------------------------------

  /** One header set in both schemes: over equal timestamp and body the strings always differ. */
  lemma SchemesSignDifferently(timestamp: string, nonce: string, body: Bytes)
    ensures CanonicalString(timestamp, nonce, body) != LegacyString(timestamp, body)
  {
    assert |CanonicalString(timestamp, nonce, body)| > |LegacyString(timestamp, body)|;
  }

  /** Over text bodies, the signed strings are the bytes of the documented formats. */
  lemma SignedStringIsFormat(timestamp: string, nonce: string, text: string)
    ensures CanonicalString(timestamp, nonce, Utf8(text)) == Utf8(timestamp + "." + nonce + "." + text)
    ensures LegacyString(timestamp, Utf8(text)) == Utf8(timestamp + "." + text)
  {
    DottedBytes(timestamp);
    Utf8Append(timestamp + ".", nonce);
    DottedBytes(timestamp + "." + nonce);
    Utf8Append(timestamp + "." + nonce + ".", text);
    Utf8Append(timestamp + ".", text);
  }

  // ---- Where the claims stop ---------------------------------------------------------------

  lemma AbsorptionIsAmbiguous(timestamp: string, n: string, rest: string, text: string)
    ensures CanonicalString(timestamp, n, Utf8(rest + "." + text))
            == CanonicalString(timestamp, n + "." + rest, Utf8(text))
  {
    Utf8Append(rest + ".", text);
    DottedBytes(rest);
    var body, longer := Utf8(rest + "." + text), n + "." + rest;
    AbsorbedBytesEqual(n, body, rest, longer, Utf8(text));
    CanonicalRegroups(timestamp, n, body);
    CanonicalRegroups(timestamp, longer, Utf8(text));
  }

  /** A dotted nonce is ambiguous: nonce "a" over "b.c" and nonce "a.b" over "c" sign alike. */
  lemma DottedNonceIsAmbiguous(timestamp: string)
    ensures CanonicalString(timestamp, "a", Utf8("b.c")) == CanonicalString(timestamp, "a.b", Utf8("c"))
  {
    assert "b.c" == "b" + "." + "c" && "a.b" == "a" + "." + "b";
    AbsorptionIsAmbiguous(timestamp, "a", "b", "c");
  }
}
