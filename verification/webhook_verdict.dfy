/**
 What a verdict means, said without trimming, decoding or parsing: in terms of the padding,
 the encodings and the numbers that the headers carry.
 */
module WebhookVerdict {
  import opened Wrappers
  import opened Text
  import opened Decimal
  import opened Hex
  import opened Framing
  import opened WebhookSig

  // ---- The declarative reading of a delivery --------------------------------------

  /** The nonce header carries `nonce`; the empty nonce stands for an absent or blank header. */
  ghost predicate CarriesNonce(p: Presented, nonce: string) {
    if nonce == "" then p.nonce.Some? ==> IsBlank(p.nonce.value)
    else p.nonce.Some? && IsTrimmed(nonce) && IsPadded(p.nonce.value, nonce)
  }

  ghost predicate SchemeFits(scheme: Scheme, nonce: string) {
    scheme == Canonical <==> nonce != ""
  }

  /** The signature header is the prefix and `hex`, padded. */
  ghost predicate CarriesHex(p: Presented, hex: string) {
    p.signature.Some? && IsPadded(p.signature.value, "sha256=" + hex) && AllHex(hex)
  }

  /** The timestamp header is `text`, padded. */
  ghost predicate CarriesTimestamp(p: Presented, text: string) {
    p.timestamp.Some? && IsTrimmed(text) && IsPadded(p.timestamp.value, text)
  }

  /** The signature header spells `tag`, padded and in either hex case. */
  ghost predicate CarriesTag(p: Presented, tag: Tag) {
    exists hex :: CarriesHex(p, hex) && Lower(hex) == HexText(tag)
  }

  /** The signature is the hex of the MAC over the message that these parts frame. */
  ghost predicate AuthenticAs(mac: MacFn, secret: Bytes, p: Presented, scheme: Scheme,
                              text: string, nonce: string)
  {
    && CarriesTimestamp(p, text) && CarriesNonce(p, nonce) && SchemeFits(scheme, nonce)
    && CarriesTag(p, mac(secret, SignedString(scheme, text, nonce, p.body)))
  }

  /** The conditions under which a delivery is to be accepted with verdict `v`. */
  ghost predicate Admits(mac: MacFn, cfg: Config, p: Presented, now: i64, v: Verified) {
    && v.scheme in cfg.accepted
    && Skew(now, v.timestamp) <= cfg.freshnessSecs
    && exists text :: Denotes(text, v.timestamp)
         && AuthenticAs(mac, cfg.secret, p, v.scheme, text, v.nonce)
  }

  // ---- From headers to their readings ---------------------------------------------------

  lemma NonceReading(p: Presented, nonce: string)
    ensures CarriesNonce(p, nonce) <==>
            nonce == (if NonceOf(p).Some? then NonceOf(p).value else "")
  {
    if p.nonce.Some? {
      TrimExact(p.nonce.value, nonce);
      TrimExact(p.nonce.value, Trim(p.nonce.value));
      BlankTrims(p.nonce.value);
    }
  }

  lemma TimestampReading(p: Presented, text: string)
    ensures CarriesTimestamp(p, text) <==> p.timestamp.Some? && Trim(p.timestamp.value) == text
  {
    if p.timestamp.Some? {
      TrimExact(p.timestamp.value, text);
    }
  }

  lemma HexReading(p: Presented, hex: string)
    ensures CarriesHex(p, hex) <==>
            p.signature.Some? && Trim(p.signature.value) == PREFIX + hex && AllHex(hex)
  {
    if p.signature.Some? && AllHex(hex) {
      var t := PREFIX + hex;
      assert t[0] == 's';
      assert t[|t| - 1] == '=' || (hex != "" && t[|t| - 1] == hex[|hex| - 1]);
      TrimExact(p.signature.value, t);
    }
  }

  lemma PrefixSplits(h: string, hex: string)
    ensures h == PREFIX + hex <==> |h| >= 7 && h[..7] == PREFIX && h[7..] == hex
  {
    if |h| >= 7 && h[..7] == PREFIX && h[7..] == hex {
      assert h == h[..7] + h[7..];
    }
  }

  /** The header is well formed exactly when it carries an even number of hex digits. */
  lemma WellFormedReading(p: Presented)
    requires p.signature.Some?
    ensures IsWellFormed(p.signature.value) <==> exists hex :: CarriesHex(p, hex) && |hex| % 2 == 0
  {
    var h := Trim(p.signature.value);
    if IsWellFormed(p.signature.value) {
      PrefixSplits(h, h[7..]);
      HexReading(p, h[7..]);
    }
    if hex :| CarriesHex(p, hex) && |hex| % 2 == 0 {
      HexReading(p, hex);
      PrefixSplits(h, hex);
    }
  }

  lemma SpellsReading(p: Presented, tag: Tag)
    requires p.signature.Some?
    ensures Spells(p.signature.value, tag) <==> CarriesTag(p, tag)
    ensures Spells(p.signature.value, tag) ==> IsWellFormed(p.signature.value)
  {
    var h := Trim(p.signature.value);
    if Spells(p.signature.value, tag) {
      PrefixSplits(h, h[7..]);
      HexDecodesTo(h[7..], tag);
      HexReading(p, h[7..]);
    }
    if hex :| CarriesHex(p, hex) && Lower(hex) == HexText(tag) {
      HexReading(p, hex);
      PrefixSplits(h, hex);
    }
  }

  /** `AuthenticAs` pins its parts to what the header functions read. */
  lemma AuthenticReading(mac: MacFn, secret: Bytes, p: Presented, scheme: Scheme,
                         text: string, nonce: string)
    ensures AuthenticAs(mac, secret, p, scheme, text, nonce) <==>
            && p.signature.Some? && p.timestamp.Some?
            && text == Trim(p.timestamp.value) && scheme == SchemeOf(p)
            && nonce == (if NonceOf(p).Some? then NonceOf(p).value else "")
            && Spells(p.signature.value, mac(secret, ExpectedMessage(p)))
  {
    TimestampReading(p, text);
    NonceReading(p, nonce);
    if p.signature.Some? && p.timestamp.Some? {
      SpellsReading(p, mac(secret, ExpectedMessage(p)));
    }
  }

  // ---- The verdict, both ways -----------------------------------------------------------------

  /** Acceptance happens exactly on the admitted deliveries, with the admitted result. */
  lemma AcceptExact(mac: MacFn, cfg: Config, p: Presented, now: i64, v: Verified)
    ensures Outcome(mac, cfg, p, now) == Success(v) <==> Admits(mac, cfg, p, now, v)
  {
    if Outcome(mac, cfg, p, now) == Success(v) {
      var text := Trim(p.timestamp.value);
      ParseExact(text, v.timestamp);
      AuthenticReading(mac, cfg.secret, p, v.scheme, text, v.nonce);
    }
    if Admits(mac, cfg, p, now, v) {
      var text :| Denotes(text, v.timestamp) && AuthenticAs(mac, cfg.secret, p, v.scheme, text, v.nonce);
      AuthenticReading(mac, cfg.secret, p, v.scheme, text, v.nonce);
      ParseExact(text, v.timestamp);
      SpellsReading(p, mac(cfg.secret, ExpectedMessage(p)));
    }
  }

  ghost predicate Authentic(mac: MacFn, secret: Bytes, p: Presented, text: string) {
    exists scheme, nonce :: AuthenticAs(mac, secret, p, scheme, text, nonce)
  }

  ghost predicate AcceptedScheme(cfg: Config, p: Presented) {
    exists scheme, nonce :: CarriesNonce(p, nonce) && SchemeFits(scheme, nonce) && scheme in cfg.accepted
  }

  lemma AcceptedSchemeReading(cfg: Config, p: Presented)
    ensures AcceptedScheme(cfg, p) <==> SchemeOf(p) in cfg.accepted
  {
    var n := if NonceOf(p).Some? then NonceOf(p).value else "";
    NonceReading(p, n);
    assert CarriesNonce(p, n) && SchemeFits(SchemeOf(p), n);
    forall scheme, nonce | CarriesNonce(p, nonce) && SchemeFits(scheme, nonce)
      ensures scheme == SchemeOf(p)
    {
      NonceReading(p, nonce);
    }
  }

  lemma AuthenticIsSpelled(mac: MacFn, secret: Bytes, p: Presented, text: string)
    ensures Authentic(mac, secret, p, text) <==>
            && p.signature.Some? && p.timestamp.Some? && text == Trim(p.timestamp.value)
            && Spells(p.signature.value, mac(secret, ExpectedMessage(p)))
  {
    var n := if NonceOf(p).Some? then NonceOf(p).value else "";
    AuthenticReading(mac, secret, p, SchemeOf(p), text, n);
    forall scheme, nonce | AuthenticAs(mac, secret, p, scheme, text, nonce)
      ensures scheme == SchemeOf(p) && nonce == n
    {
      AuthenticReading(mac, secret, p, scheme, text, nonce);
    }
  }

  /** The delivery is authentic for some timestamp text (necessarily the header's own). */
  ghost predicate IsAuthentic(mac: MacFn, secret: Bytes, p: Presented) {
    exists text :: Authentic(mac, secret, p, text)
  }

  /**
   Each rejection, exactly. The order of the checks shows in the conditions: a header complaint
   needs nothing else, a scheme complaint needs both headers, a malformed signature needs an
   accepted scheme, and the timestamp is judged only on an authentic delivery.
   */
  lemma RejectExact(mac: MacFn, cfg: Config, p: Presented, now: i64)
    ensures Outcome(mac, cfg, p, now) == Failure(MissingSignature) <==> p.signature.None?
    ensures Outcome(mac, cfg, p, now) == Failure(MissingTimestamp) <==>
            p.signature.Some? && p.timestamp.None?
    ensures Outcome(mac, cfg, p, now) == Failure(MissingNonce) <==>
            && p.signature.Some? && p.timestamp.Some?
            && CarriesNonce(p, "") && LegacyNoNonce !in cfg.accepted
    ensures Outcome(mac, cfg, p, now) == Failure(MalformedSignature) <==>
            && p.signature.Some? && p.timestamp.Some? && AcceptedScheme(cfg, p)
            && !exists hex :: CarriesHex(p, hex) && |hex| % 2 == 0
    ensures Outcome(mac, cfg, p, now) == Failure(SignatureMismatch) <==>
            && p.signature.Some? && p.timestamp.Some?
            && (|| (!CarriesNonce(p, "") && Canonical !in cfg.accepted)
                || (&& AcceptedScheme(cfg, p)
                    && (exists hex :: CarriesHex(p, hex) && |hex| % 2 == 0)
                    && !IsAuthentic(mac, cfg.secret, p)))
    ensures Outcome(mac, cfg, p, now) == Failure(MalformedTimestamp) <==>
            && AcceptedScheme(cfg, p)
            && exists text :: Authentic(mac, cfg.secret, p, text)
                 && !exists n: i64 :: Denotes(text, n)
    ensures forall ts: i64, at: i64, skew: i64 ::
              Outcome(mac, cfg, p, now) == Failure(Stale(ts, at, skew)) <==>
              && AcceptedScheme(cfg, p) && at == now && skew == Skew(now, ts) > cfg.freshnessSecs
              && exists text :: Authentic(mac, cfg.secret, p, text) && Denotes(text, ts)
  {
    NonceReading(p, "");
    AcceptedSchemeReading(cfg, p);
    assert NonceOf(p).Some? ==> NonceOf(p).value != "";
    if p.signature.Some? && p.timestamp.Some? {
      var text := Trim(p.timestamp.value);
      WellFormedReading(p);
      AuthenticIsSpelled(mac, cfg.secret, p, text);
      SpellsReading(p, mac(cfg.secret, ExpectedMessage(p)));
      OnlyHeaderTextIsAuthentic(mac, cfg.secret, p);
      forall n: i64 ensures ParseI64(text) == Some(n) <==> Denotes(text, n) {
        ParseExact(text, n);
      }
      assert IsAuthentic(mac, cfg.secret, p) <==>
             Spells(p.signature.value, mac(cfg.secret, ExpectedMessage(p)));
      ParseFailureReading(text);
    } else {
      NeverAuthentic(mac, cfg.secret, p);
    }
  }

  lemma ParseFailureReading(text: string)
    ensures ParseI64(text).None? <==> !exists n: i64 :: Denotes(text, n)
  {
    forall n: i64 ensures ParseI64(text) == Some(n) <==> Denotes(text, n) {
      ParseExact(text, n);
    }
    if ParseI64(text).Some? {
      assert Denotes(text, ParseI64(text).value);
    }
  }

  lemma OnlyHeaderTextIsAuthentic(mac: MacFn, secret: Bytes, p: Presented)
    requires p.timestamp.Some?
    ensures forall text :: Authentic(mac, secret, p, text) ==> text == Trim(p.timestamp.value)
  {
    forall text | Authentic(mac, secret, p, text) ensures text == Trim(p.timestamp.value) {
      AuthenticIsSpelled(mac, secret, p, text);
    }
  }

  lemma NeverAuthentic(mac: MacFn, secret: Bytes, p: Presented)
    requires p.signature.None? || p.timestamp.None?
    ensures forall text :: !Authentic(mac, secret, p, text)
  {
    forall text ensures !Authentic(mac, secret, p, text) {
      AuthenticIsSpelled(mac, secret, p, text);
    }
  }
}
