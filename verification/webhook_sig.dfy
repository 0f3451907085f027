/**
 The canonical webhook signature scheme: the streaming MAC, the signer, and the verifier with
 its scheme selector and freshness window. HMAC-SHA256 (section 2 of RFC 2104) is an arbitrary
 function from key and message to a 32-byte tag.
 */
module WebhookSig {
  import opened Wrappers
  import opened Text
  import opened Decimal
  import opened Hex
  import opened Framing

  const DEFAULT_FRESHNESS_SECS: i64 := 300
  const PREFIX := "sha256="

  type Tag = t: Bytes | |t| == 32 witness seq(32, _ => 0)

  type MacFn = (Bytes, Bytes) -> Tag

  datatype Signed = Signed(signature: string, timestamp: string, nonce: string)

  /** The raw headers and the body; `None` is an absent header. */
  datatype Presented = Presented(
    signature: Option<string>, timestamp: Option<string>, nonce: Option<string>, body: Bytes)

  datatype Verified = Verified(nonce: string, timestamp: i64, scheme: Scheme)

  datatype VerifyError =
    | MissingSignature
    | MissingTimestamp
    | MissingNonce
    | MalformedSignature
    | MalformedTimestamp
    | SignatureMismatch
    | Stale(timestamp: i64, now: i64, skewSecs: i64)

  type Verdict = Result<Verified, VerifyError>

  // ---- The streaming MAC ------------------------------------------------------------

  /** A keyed MAC being fed: what it will tag is everything fed so far. */
  class MacStream {
    const algo: MacFn
    const key: Bytes
    var fed: Bytes

    constructor (algo: MacFn, key: Bytes)
      ensures this.algo == algo && this.key == key && fed == []
    {
      this.algo := algo;
      this.key := key;
      fed := [];
    }

    method Update(bytes: Bytes)
      modifies this
      ensures fed == old(fed) + bytes
    {
      fed := fed + bytes;
    }

    method Finalize() returns (tag: Tag)
      ensures tag == algo(key, fed)
    {
      tag := algo(key, fed);
    }

    /** Whole-tag comparison: a tag of another length never matches. */
    method VerifySlice(tag: Bytes) returns (matches: bool)
      ensures matches <==> tag == algo(key, fed)
    {
      matches := tag == algo(key, fed);
    }
  }

  // ---- Signing ------------------------------------------------------------------------

  /** The form of `Uuid::new_v4().to_string()`: lower-case hex in groups of 8-4-4-4-12. */
  predicate IsUuidText(s: string) {
    && |s| == 36
    && forall i :: 0 <= i < 36 ==>
      if i in {8, 13, 18, 23} then s[i] == '-' else '0' <= s[i] <= '9' || 'a' <= s[i] <= 'f'
  }

  /** What the signature header of a delivery signed over `message` reads. */
  function SignatureText(mac: MacFn, secret: Bytes, message: Bytes): string {
    PREFIX + HexText(mac(secret, message))
  }

  class Signer {
    const algo: MacFn
    const secret: Bytes

    constructor (algo: MacFn, secret: Bytes)
      ensures this.algo == algo && this.secret == secret
    {
      this.algo := algo;
      this.secret := secret;
    }

    /** `mac_over`: the canonical message goes in piece by piece. */
    method MacOver(timestamp: string, nonce: string, body: Bytes) returns (tag: Tag)
      ensures tag == algo(secret, CanonicalString(timestamp, nonce, body))
    {
      var mac := new MacStream(algo, secret);
      mac.Update(Utf8(timestamp));
      mac.Update([DOT]);
      mac.Update(Utf8(nonce));
      mac.Update([DOT]);
      mac.Update(body);
      assert mac.fed == CanonicalString(timestamp, nonce, body);
      tag := mac.Finalize();
    }

    method SignWith(body: Bytes, timestamp: string, nonce: string) returns (s: Signed)
      ensures s == Signed(SignatureText(algo, secret, CanonicalString(timestamp, nonce, body)),
                          timestamp, nonce)
    {
      var tag := MacOver(timestamp, nonce, body);
      var hex := HexLower(tag);
      s := Signed(PREFIX + hex, timestamp, nonce);
    }

    /** `sign`, with the clock reading and the fresh UUID passed in. */
    method Sign(body: Bytes, now: i64, uuid: string) returns (s: Signed)
      requires 0 <= now && IsUuidText(uuid)
      ensures s == SignedAt(algo, secret, body, now, uuid)
      ensures IsDecimalText(s.timestamp, now) && s.nonce == uuid
    {
      PrintExact(now, PrintI64(now));
      s := SignWith(body, PrintI64(now), uuid);
    }
  }

  /** What `sign` emits for a clock reading and a nonce. */
  function SignedAt(mac: MacFn, secret: Bytes, body: Bytes, now: i64, nonce: string): Signed {
    Signed(SignatureText(mac, secret, CanonicalString(PrintI64(now), nonce, body)),
           PrintI64(now), nonce)
  }

  // ---- Verifying: what the verdict is ---------------------------------------------------

  datatype Config = Config(secret: Bytes, freshnessSecs: i64, accepted: seq<Scheme>)

  /** The nonce header, trimmed; a blank one counts as absent. */
  function NonceOf(p: Presented): Option<string> {
    if p.nonce.Some? && Trim(p.nonce.value) != "" then Some(Trim(p.nonce.value)) else None
  }

  /** `(now - ts).abs()` in 64-bit wrap-around arithmetic. */
  function Skew(now: i64, ts: i64): i64 {
    AbsI64(WrapI64(now - ts))
  }

  /** The signature header is the prefix and decodable hex. */
  predicate IsWellFormed(header: string) {
    var h := Trim(header);
    |h| >= 7 && h[..7] == PREFIX && HexBytes(h[7..]).Some?
  }

  /** The signature header spells `tag`, in either case. */
  predicate Spells(header: string, tag: Tag) {
    var h := Trim(header);
    |h| >= 7 && h[..7] == PREFIX && Lower(h[7..]) == HexText(tag)
  }

  /** The scheme that the nonce's presence calls for. */
  function SchemeOf(p: Presented): Scheme {
    if NonceOf(p).Some? then Canonical else LegacyNoNonce
  }

  /** The message whose tag the verifier expects to see. */
  function ExpectedMessage(p: Presented): Bytes
    requires p.timestamp.Some?
  {
    SignedString(SchemeOf(p), Trim(p.timestamp.value),
                 if NonceOf(p).Some? then NonceOf(p).value else "", p.body)
  }

  /** The verdict on a delivery, check by check. */
  function Outcome(mac: MacFn, cfg: Config, p: Presented, now: i64): Verdict {
    if p.signature.None? then Failure(MissingSignature)
    else if p.timestamp.None? then Failure(MissingTimestamp)
    else if SchemeOf(p) !in cfg.accepted then
      Failure(if SchemeOf(p) == Canonical then SignatureMismatch else MissingNonce)
    else if !IsWellFormed(p.signature.value) then Failure(MalformedSignature)
    else if !Spells(p.signature.value, mac(cfg.secret, ExpectedMessage(p))) then
      Failure(SignatureMismatch)
    else
      match ParseI64(Trim(p.timestamp.value))
      case None => Failure(MalformedTimestamp)
      case Some(ts) =>
        if Skew(now, ts) > cfg.freshnessSecs then Failure(Stale(ts, now, Skew(now, ts)))
        else Success(Verified(if NonceOf(p).Some? then NonceOf(p).value else "", ts, SchemeOf(p)))
  }

  // ---- Builder calls ----------------------------------------------------------------------

  datatype BuilderCall = WithFreshness(secs: i64) | AlsoAccept(scheme: Scheme)

  function NewConfig(secret: Bytes): Config {
    Config(secret, DEFAULT_FRESHNESS_SECS, [Canonical])
  }

  function ApplyCall(cfg: Config, call: BuilderCall): Config {
    match call
    case WithFreshness(secs) => cfg.(freshnessSecs := secs)
    case AlsoAccept(scheme) =>
      if scheme in cfg.accepted then cfg else cfg.(accepted := cfg.accepted + [scheme])
  }

  // ---- The verifier ---------------------------------------------------------------------------

  class Verifier {
    const algo: MacFn
    const secret: Bytes
    var freshnessSecs: i64
    var accepted: seq<Scheme>

    ghost function Settings(): Config
      reads this
    {
      Config(secret, freshnessSecs, accepted)
    }

    constructor (algo: MacFn, secret: Bytes)
      ensures this.algo == algo && Settings() == NewConfig(secret)
    {
      this.algo := algo;
      this.secret := secret;
      freshnessSecs := DEFAULT_FRESHNESS_SECS;
      accepted := [Canonical];
    }

    method WithFreshnessSecs(secs: i64)
      modifies this
      ensures Settings() == ApplyCall(old(Settings()), WithFreshness(secs))
    {
      freshnessSecs := secs;
    }

    method AlsoAccept(scheme: Scheme)
      modifies this
      ensures Settings() == ApplyCall(old(Settings()), BuilderCall.AlsoAccept(scheme))
    {
      if scheme !in accepted {
        accepted := accepted + [scheme];
      }
    }

    predicate Accepts(scheme: Scheme)
      reads this
    {
      scheme in accepted
    }

    /** The MAC half of `verify`: feed the chosen scheme's message and compare the tag. */
    method TagMatches(scheme: Scheme, timestamp: string, nonce: Option<string>, body: Bytes,
                      expected: Bytes)
      returns (ok: bool)
      requires scheme == Canonical ==> nonce.Some?
      ensures ok <==> expected == algo(secret,
                SignedString(scheme, timestamp, if nonce.Some? then nonce.value else "", body))
    {
      var mac := new MacStream(algo, secret);
      mac.Update(Utf8(timestamp));
      mac.Update([DOT]);
      if scheme == Canonical {
        mac.Update(Utf8(nonce.value));
        mac.Update([DOT]);
      }
      mac.Update(body);
      assert mac.fed ==
        SignedString(scheme, timestamp, if nonce.Some? then nonce.value else "", body);
      ok := mac.VerifySlice(expected);
    }

    method Verify(p: Presented, now: i64) returns (r: Verdict)
      ensures r == Outcome(algo, Settings(), p, now)
    {
      if p.signature.None? { return Failure(MissingSignature); }
      var signature := Trim(p.signature.value);
      if p.timestamp.None? { return Failure(MissingTimestamp); }
      var timestamp := Trim(p.timestamp.value);
      var nonce := if p.nonce.None? || Trim(p.nonce.value) == "" then None
                   else Some(Trim(p.nonce.value));

      var scheme;
      match nonce {
        case Some(_) =>
          if !Accepts(Canonical) { return Failure(SignatureMismatch); }
          scheme := Canonical;
        case None =>
          if !Accepts(LegacyNoNonce) { return Failure(MissingNonce); }
          scheme := LegacyNoNonce;
      }

      if |signature| < 7 || signature[..7] != PREFIX { return Failure(MalformedSignature); }
      var expected := HexDecode(signature[7..]);
      if expected.None? { return Failure(MalformedSignature); }

      var ok := TagMatches(scheme, timestamp, nonce, p.body, expected.value);
      HexDecodesTo(signature[7..], algo(secret, ExpectedMessage(p)));
      if !ok { return Failure(SignatureMismatch); }

      var ts := ParseI64(timestamp);
      if ts.None? { return Failure(MalformedTimestamp); }
      var skew := AbsI64(WrapI64(now - ts.value));
      if skew > freshnessSecs { return Failure(Stale(ts.value, now, skew)); }
      return Success(Verified(if nonce.Some? then nonce.value else "", ts.value, scheme));
    }
  }
}
