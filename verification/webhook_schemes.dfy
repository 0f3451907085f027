/**
 Taking a signature for another message. The verifier picks the scheme by the nonce's presence;
 here is exactly which deliveries a given signature then passes on, given that the MAC does not
 collide on the two messages concerned. In particular, when one scheme's signature passes under
 the other.
 */
module WebhookSchemes {
  import opened Wrappers
  import opened Text
  import opened Decimal
  import opened Hex
  import opened Framing
  import opened WebhookSig
  import opened WebhookVerdict
  import opened WebhookLaws

  /** The MAC tells these two messages apart, if they differ. */
  ghost predicate NoCollision(mac: MacFn, secret: Bytes, a: Bytes, b: Bytes) {
    mac(secret, a) == mac(secret, b) ==> a == b
  }

  /** The tag that a delivery carries passes exactly when its message is the expected one. */
  lemma TagPassesExactly(mac: MacFn, secret: Bytes, p: Presented, message: Bytes)
    requires p.timestamp.Some? && CarriesTag(p, mac(secret, message))
    requires NoCollision(mac, secret, ExpectedMessage(p), message)
    ensures p.signature.Some? && IsWellFormed(p.signature.value)
    ensures Spells(p.signature.value, mac(secret, ExpectedMessage(p))) <==> ExpectedMessage(p) == message
  {
    SpellsReading(p, mac(secret, message));
    SameTagSameSpelling(mac(secret, ExpectedMessage(p)), mac(secret, message));
  }

  // ---- Every delivery that a signature passes on -----------------------------------------

  /**
   A signature made over any parts, under either scheme, is accepted on a delivery exactly when the
   delivery's scheme is accepted, its timestamp is what the signed one has before its first dot, an
   integer and fresh, and its nonce and body frame the same bytes after that dot.
   */
  lemma SignatureExact(mac: MacFn, cfg: Config, scheme: Scheme, text: string, nonce: string, body: Bytes,
                       p: Presented, now: i64, v: Verified)
    requires p.timestamp.Some?
    requires CarriesTag(p, mac(cfg.secret, SignedString(scheme, text, nonce, body)))
    requires NoCollision(mac, cfg.secret, ExpectedMessage(p), SignedString(scheme, text, nonce, body))
    ensures Outcome(mac, cfg, p, now) == Success(v) <==>
      && v.scheme in cfg.accepted && SchemeFits(v.scheme, v.nonce) && CarriesNonce(p, v.nonce)
      && CarriesTimestamp(p, BeforeDot(text)) && Denotes(BeforeDot(text), v.timestamp)
      && Skew(now, v.timestamp) <= cfg.freshnessSecs
      && Payload(v.scheme, v.nonce, p.body) == AfterDot(text, Payload(scheme, nonce, body))
  {
    var header := Trim(p.timestamp.value);
    var n := if NonceOf(p).Some? then NonceOf(p).value else "";
    NonceReading(p, v.nonce);
    TimestampReading(p, BeforeDot(text));
    ParseExact(header, v.timestamp);
    TagPassesExactly(mac, cfg.secret, p, SignedString(scheme, text, nonce, body));
    assert SchemeFits(SchemeOf(p), n);
    if ParseI64(header).Some? { ParsedTextIsPlain(header); }
    if '.' !in header {
      SignedCoincide(scheme, text, nonce, body, SchemeOf(p), header, n, p.body);
    }
  }

  // ---- A canonical signature, presented without a nonce ------------------------------------

  /**
   A canonical signature on a delivery without a nonce is accepted exactly when legacy is, the
   timestamp is the signed one (up to its first dot), an integer and fresh, and the body is what
   was signed after it: for a dot-free timestamp, the nonce, a dot and the signed body.
   */
  lemma StrippedExact(mac: MacFn, cfg: Config, text: string, nonce: string, body: Bytes,
                      p: Presented, now: i64, v: Verified)
    requires p.timestamp.Some? && CarriesNonce(p, "")
    requires CarriesTag(p, mac(cfg.secret, CanonicalString(text, nonce, body)))
    requires NoCollision(mac, cfg.secret, ExpectedMessage(p), CanonicalString(text, nonce, body))
    ensures Outcome(mac, cfg, p, now) == Success(v) <==>
      && LegacyNoNonce in cfg.accepted && v.scheme == LegacyNoNonce && v.nonce == ""
      && CarriesTimestamp(p, BeforeDot(text)) && Denotes(BeforeDot(text), v.timestamp)
      && Skew(now, v.timestamp) <= cfg.freshnessSecs
      && p.body == AfterDot(text, Utf8(nonce) + [DOT] + body)
  {
    SignatureExact(mac, cfg, Canonical, text, nonce, body, p, now, v);
    NonceReading(p, "");
    NonceReading(p, v.nonce);
  }

  /** Stripping the nonce off a canonical delivery, with nothing else changed, is a mismatch. */
  lemma StrippedIsMismatch(mac: MacFn, cfg: Config, text: string, nonce: string, p: Presented, now: i64)
    requires LegacyNoNonce in cfg.accepted
    requires CarriesTimestamp(p, text) && CarriesNonce(p, "")
    requires CarriesTag(p, mac(cfg.secret, CanonicalString(text, nonce, p.body)))
    requires NoCollision(mac, cfg.secret, LegacyString(text, p.body), CanonicalString(text, nonce, p.body))
    ensures Outcome(mac, cfg, p, now) == Failure(SignatureMismatch)
  {
    NonceReading(p, "");
    TimestampReading(p, text);
    SchemesSignDifferently(text, nonce, p.body);
    TagPassesExactly(mac, cfg.secret, p, CanonicalString(text, nonce, p.body));
  }

  // ---- A legacy signature, presented with a nonce -------------------------------------------

  /**
   A legacy signature on a delivery with a nonce is accepted exactly when canonical is, the
   timestamp is the signed one (up to its first dot), an integer and fresh, and the nonce, a dot
   and the body are what was signed after it: for a dot-free timestamp, the signed body.
   */
  lemma PromotedExact(mac: MacFn, cfg: Config, text: string, legacyBody: Bytes,
                      p: Presented, now: i64, v: Verified)
    requires p.timestamp.Some? && !CarriesNonce(p, "")
    requires CarriesTag(p, mac(cfg.secret, LegacyString(text, legacyBody)))
    requires NoCollision(mac, cfg.secret, ExpectedMessage(p), LegacyString(text, legacyBody))
    ensures Outcome(mac, cfg, p, now) == Success(v) <==>
      && Canonical in cfg.accepted && v.scheme == Canonical
      && v.nonce != "" && CarriesNonce(p, v.nonce)
      && CarriesTimestamp(p, BeforeDot(text)) && Denotes(BeforeDot(text), v.timestamp)
      && Skew(now, v.timestamp) <= cfg.freshnessSecs
      && Utf8(v.nonce) + [DOT] + p.body == AfterDot(text, legacyBody)
  {
    SignatureExact(mac, cfg, LegacyNoNonce, text, "", legacyBody, p, now, v);
  }

  /** Giving a legacy delivery a nonce, with nothing else changed, is a mismatch. */
  lemma PromotedIsMismatch(mac: MacFn, cfg: Config, text: string, nonce: string, p: Presented, now: i64)
    requires Canonical in cfg.accepted && nonce != ""
    requires CarriesTimestamp(p, text) && CarriesNonce(p, nonce)
    requires CarriesTag(p, mac(cfg.secret, LegacyString(text, p.body)))
    requires NoCollision(mac, cfg.secret, CanonicalString(text, nonce, p.body), LegacyString(text, p.body))
    ensures Outcome(mac, cfg, p, now) == Failure(SignatureMismatch)
  {
    NonceReading(p, nonce);
    TimestampReading(p, text);
    SchemesSignDifferently(text, nonce, p.body);
    TagPassesExactly(mac, cfg.secret, p, LegacyString(text, p.body));
  }

  // ---- Coinciding deliveries do verify ---------------------------------------------------------

  /** The same signature header on another delivery that frames the same bytes. */
  lemma RespelledVerifies(mac: MacFn, cfg: Config, message: Bytes, scheme: Scheme, text: string,
                          nonce: string, body: Bytes, ts: i64, now: i64)
    requires scheme in cfg.accepted && SchemeFits(scheme, nonce) && IsTrimmed(nonce)
    requires ParseI64(text) == Some(ts) && Skew(now, ts) <= cfg.freshnessSecs
    requires SignedString(scheme, text, nonce, body) == message
    ensures Outcome(mac, cfg,
              Presented(Some(SignatureText(mac, cfg.secret, message)), Some(text),
                        if scheme == Canonical then Some(nonce) else None, body), now)
            == Success(Verified(nonce, ts, scheme))
  {
    PlainDeliveryVerifies(mac, cfg, scheme, text, nonce, body, ts, now);
  }

  /**
   What `sign` minted, presented without its nonce over the body nonce-dot-body, is accepted as
   legacy by every verifier that takes legacy, whatever the MAC.
   */
  lemma RespelledAsLegacy(mac: MacFn, cfg: Config, body: Bytes, mint: i64, uuid: string, now: i64)
    requires LegacyNoNonce in cfg.accepted && IsUuidText(uuid)
    requires Skew(now, mint) <= cfg.freshnessSecs
    ensures var s := SignedAt(mac, cfg.secret, body, mint, uuid);
            Outcome(mac, cfg,
              Presented(Some(s.signature), Some(s.timestamp), None, Utf8(uuid) + [DOT] + body), now)
            == Success(Verified("", mint, LegacyNoNonce))
  {
    var text := PrintI64(mint);
    ParsePrintI64(mint);
    CanonicalRegroups(text, uuid, body);
    RespelledVerifies(mac, cfg, CanonicalString(text, uuid, body), LegacyNoNonce, text, "",
                      Utf8(uuid) + [DOT] + body, mint, now);
  }

  /** What a legacy sender signed over nonce-dot-body is accepted as canonical under that nonce. */
  lemma RespelledAsCanonical(mac: MacFn, cfg: Config, nonce: string, body: Bytes, mint: i64, now: i64)
    requires Canonical in cfg.accepted && nonce != "" && IsTrimmed(nonce)
    requires Skew(now, mint) <= cfg.freshnessSecs
    ensures var signature := SignatureText(mac, cfg.secret,
              LegacyString(PrintI64(mint), Utf8(nonce) + [DOT] + body));
            Outcome(mac, cfg, Presented(Some(signature), Some(PrintI64(mint)), Some(nonce), body), now)
            == Success(Verified(nonce, mint, Canonical))
  {
    var text := PrintI64(mint);
    ParsePrintI64(mint);
    CanonicalRegroups(text, nonce, body);
    RespelledVerifies(mac, cfg, LegacyString(text, Utf8(nonce) + [DOT] + body), Canonical, text, nonce,
                      body, mint, now);
  }

  /** Concretely: a legacy "x.y" verifies as nonce "x" over "y", even on a canonical-only verifier. */
  lemma LegacyBodyReadAsNonce(mac: MacFn, secret: Bytes, mint: i64)
    ensures var signature := SignatureText(mac, secret, LegacyString(PrintI64(mint), Utf8("x.y")));
            Outcome(mac, NewConfig(secret),
                    Presented(Some(signature), Some(PrintI64(mint)), Some("x"), Utf8("y")), mint)
            == Success(Verified("x", mint, Canonical))
  {
    assert "x.y" == "x" + "." + "y";
    Utf8Append("x" + ".", "y");
    DottedBytes("x");
    WrappedSkewExact(mint, mint);
    RespelledAsCanonical(mac, NewConfig(secret), "x", Utf8("y"), mint, mint);
  }

  /**
   `sign_with` over a timestamp with a dot in it, integer-dot-piece: its own delivery fails on the
   timestamp, while the same signature passes with the integer as timestamp and the piece as nonce,
   over the signed nonce, a dot and the body.
   */
  lemma DottedTimestampRespelled(mac: MacFn, cfg: Config, text: string, ts: i64, piece: string,
                                 nonce: string, body: Bytes, now: i64)
    requires Canonical in cfg.accepted && nonce != "" && IsTrimmed(nonce)
    requires piece != "" && IsTrimmed(piece)
    requires ParseI64(text) == Some(ts) && Skew(now, ts) <= cfg.freshnessSecs
    ensures var dotted := text + "." + piece;
            var signature := SignatureText(mac, cfg.secret, CanonicalString(dotted, nonce, body));
            && Outcome(mac, cfg, Presented(Some(signature), Some(dotted), Some(nonce), body), now)
               == Failure(MalformedTimestamp)
            && Outcome(mac, cfg,
                 Presented(Some(signature), Some(text), Some(piece), Utf8(nonce) + [DOT] + body), now)
               == Success(Verified(piece, ts, Canonical))
  {
    var dotted, tail := text + "." + piece, Utf8(nonce) + [DOT] + body;
    ParsedTextIsPlain(text);
    assert dotted[0] == text[0] && dotted[|dotted| - 1] == piece[|piece| - 1];
    TrimOfTrimmed(dotted);
    TrimOfTrimmed(nonce);
    SignatureTextSpells(mac, cfg.secret, CanonicalString(dotted, nonce, body));
    assert ParseI64(dotted).None? by {
      assert dotted[|text|] == '.';
      if ParseI64(dotted).Some? { ParsedTextIsPlain(dotted); }
    }
    DottedTextRegroups(text, piece, nonce, body);
    RespelledVerifies(mac, cfg, CanonicalString(dotted, nonce, body), Canonical, text, piece, tail, ts, now);
  }

  lemma DottedTextRegroups(text: string, piece: string, nonce: string, body: Bytes)
    ensures CanonicalString(text + "." + piece, nonce, body)
            == CanonicalString(text, piece, Utf8(nonce) + [DOT] + body)
  {
    var tail := Utf8(nonce) + [DOT] + body;
    CanonicalRegroups(text + "." + piece, nonce, body);
    CanonicalRegroups(text, piece, tail);
    DottedTextBytes(text, piece, tail);
  }
}
