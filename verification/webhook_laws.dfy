/**
 Laws of signing and verifying: the round trip, the freshness window, and what the builder
 calls can and cannot change.
 */
module WebhookLaws {
  import opened Wrappers
  import opened Text
  import opened Decimal
  import opened Hex
  import opened Framing
  import opened WebhookSig
  import opened WebhookVerdict

  // ---- Round trip ------------------------------------------------------------------

  /** The delivery carries what was signed, up to header padding and the case of the hex. */
  ghost predicate Delivers(p: Presented, s: Signed, body: Bytes) {
    && p.body == body
    && p.timestamp.Some? && IsPadded(p.timestamp.value, s.timestamp)
    && p.nonce.Some? && IsPadded(p.nonce.value, s.nonce)
    && exists hex :: CarriesHex(p, hex) && "sha256=" + Lower(hex) == s.signature
  }

  lemma UuidIsPlain(s: string)
    requires IsUuidText(s)
    ensures s != "" && IsTrimmed(s) && '.' !in s
  {
    assert s[0] != '-' && s[35] != '-';
    assert !IsWhitespace(s[0]) && !IsWhitespace(s[35]);
    assert forall i :: 0 <= i < 36 ==> s[i] != '.';
  }

  /** A UUID has the expected form. */
  lemma UuidExample()
    ensures IsUuidText("550e8400-e29b-41d4-a716-446655440000")
  {
  }

  lemma SameTagSameSpelling(a: Tag, b: Tag)
    ensures HexText(a) == HexText(b) <==> a == b
  {
    HexRoundTrip(a);
    HexRoundTrip(b);
  }

  lemma DeliveredReading(p: Presented, s: Signed, body: Bytes, mac: MacFn, secret: Bytes, message: Bytes)
    requires Delivers(p, s, body) && s.signature == SignatureText(mac, secret, message)
    ensures Trim(p.timestamp.value) == Trim(s.timestamp) && Trim(p.nonce.value) == Trim(s.nonce)
    ensures p.signature.Some? && IsWellFormed(p.signature.value)
    ensures forall tag: Tag :: Spells(p.signature.value, tag) <==> tag == mac(secret, message)
  {
    PaddingIsTrimmedAway(p.timestamp.value, s.timestamp);
    PaddingIsTrimmedAway(p.nonce.value, s.nonce);
    var hex :| CarriesHex(p, hex) && "sha256=" + Lower(hex) == s.signature;
    assert s.signature[7..] == Lower(hex) == HexText(mac(secret, message));
    SpellsReading(p, mac(secret, message));
    HexReading(p, hex);
    PrefixSplits(Trim(p.signature.value), hex);
    forall tag: Tag ensures Spells(p.signature.value, tag) <==> tag == mac(secret, message) {
      SameTagSameSpelling(tag, mac(secret, message));
    }
  }

  lemma PaddingNests(raw: string, l: string, l2: string, core: string, r2: string, r: string)
    requires IsBlank(l) && IsBlank(l2) && IsBlank(r2) && IsBlank(r)
    requires raw == l + (l2 + core + r2) + r
    ensures IsPadded(raw, core)
  {
    var left, right := l + l2, r2 + r;
    assert IsBlank(left) && IsBlank(right);
    assert raw == left + core + right;
  }

  lemma PaddingIsTrimmedAway(raw: string, core: string)
    requires IsPadded(raw, core)
    ensures Trim(raw) == Trim(core)
  {
    var l, r :| IsBlank(l) && IsBlank(r) && raw == l + core + r;
    TrimExact(core, Trim(core));
    var l2, r2 :| IsBlank(l2) && IsBlank(r2) && core == l2 + Trim(core) + r2;
    PaddingNests(raw, l, l2, Trim(core), r2, r);
    TrimExact(raw, Trim(core));
  }

  /**
   `sign_with` over any timestamp and nonce texts: the delivery is accepted as canonical exactly
   when the nonce is not blank, trimming the two texts leaves the MAC alone (as it does when they
   carry no padding), the timestamp is an integer, and it is fresh.
   */
  lemma SignWithVerifies(mac: MacFn, cfg: Config, body: Bytes, timestamp: string, nonce: string,
                         s: Signed, p: Presented, now: i64, reported: string, ts: i64)
    requires s == Signed(
      SignatureText(mac, cfg.secret, CanonicalString(timestamp, nonce, body)), timestamp, nonce)
    requires Delivers(p, s, body) && Canonical in cfg.accepted
    ensures Outcome(mac, cfg, p, now) == Success(Verified(reported, ts, Canonical)) <==>
      && reported == Trim(nonce) != ""
      && mac(cfg.secret, CanonicalString(Trim(timestamp), Trim(nonce), body))
         == mac(cfg.secret, CanonicalString(timestamp, nonce, body))
      && Denotes(Trim(timestamp), ts)
      && Skew(now, ts) <= cfg.freshnessSecs
  {
    DeliveredReading(p, s, body, mac, cfg.secret, CanonicalString(timestamp, nonce, body));
    ParseExact(Trim(timestamp), ts);
  }

  /** Every delivery that `sign` mints verifies while fresh, and is reported stale afterwards. */
  lemma SignThenVerify(mac: MacFn, cfg: Config, body: Bytes, mint: i64, uuid: string,
                       p: Presented, now: i64)
    requires 0 <= mint && 0 <= now && IsUuidText(uuid)
    requires Canonical in cfg.accepted
    requires Delivers(p, SignedAt(mac, cfg.secret, body, mint, uuid), body)
    ensures Outcome(mac, cfg, p, now) ==
            if Magnitude(now - mint) <= cfg.freshnessSecs
            then Success(Verified(uuid, mint, Canonical))
            else Failure(Stale(mint, now, Magnitude(now - mint)))
  {
    var ts := PrintI64(mint);
    DeliveredReading(p, SignedAt(mac, cfg.secret, body, mint, uuid), body, mac, cfg.secret,
                     CanonicalString(ts, uuid, body));
    UuidIsPlain(uuid);
    TrimOfTrimmed(uuid);
    ParsePrintI64(mint);
    ParsedTextIsPlain(ts);
    TrimOfTrimmed(ts);
    WrappedSkewExact(now, mint);
  }

  /** A new verifier takes what `sign` minted for 300 seconds either way, and no longer. */
  lemma DefaultWindow(mac: MacFn, secret: Bytes, body: Bytes, mint: i64, uuid: string,
                      p: Presented, now: i64)
    requires 0 <= mint && 0 <= now && IsUuidText(uuid)
    requires Delivers(p, SignedAt(mac, secret, body, mint, uuid), body)
    ensures Outcome(mac, NewConfig(secret), p, now).Success? <==> mint - 300 <= now <= mint + 300
  {
    SignThenVerify(mac, NewConfig(secret), body, mint, uuid, p, now);
  }

  // ---- Freshness ------------------------------------------------------------------------

  /**
   The wrapped comparison gives the mathematical answer exactly when the distance fits in 64 bits,
   or is so far past it that even the wrapped distance exceeds the window. At a distance of
   2^63 the wrapped one is negative and always passes.
   */
  lemma FreshnessExact(now: i64, ts: i64, window: i64)
    ensures (Skew(now, ts) <= window <==> Magnitude(now - ts) <= window) <==>
            || Magnitude(now - ts) <= MAX_I64
            || (&& Magnitude(now - ts) > MAX_I64 + 1
                && 0x1_0000_0000_0000_0000 - Magnitude(now - ts) > window)
  {
    WrappedSkewExact(now, ts);
  }

  /** Readings that are not negative, as the clock and `sign` give, never overflow. */
  lemma NonnegativeReadingsFit(now: i64, ts: i64)
    requires 0 <= now && 0 <= ts
    ensures Skew(now, ts) == Magnitude(now - ts)
  {
    WrappedSkewExact(now, ts);
  }

  /** A far negative timestamp is where the comparison goes wrong. */
  lemma FarTimestampLooksFresh(window: i64)
    ensures Skew(0, MIN_I64) <= window && Magnitude(0 - MIN_I64) > window
  {
    WrappedSkewExact(0, MIN_I64);
  }

  /** Time only enters the verdict through the skew. */
  lemma VerdictOverTime(mac: MacFn, cfg: Config, p: Presented, t1: i64, t2: i64)
    ensures match Outcome(mac, cfg, p, t1)
            case Success(v) =>
              Outcome(mac, cfg, p, t2) ==
              (if Skew(t2, v.timestamp) <= cfg.freshnessSecs then Success(v)
               else Failure(Stale(v.timestamp, t2, Skew(t2, v.timestamp))))
            case Failure(e) =>
              !e.Stale? ==> Outcome(mac, cfg, p, t2) == Failure(e)
  {
  }

  /** The distance between clock and timestamp counts as within the window. */
  predicate CountsAsFresh(now: i64, ts: i64, window: i64) {
    var distance := Magnitude(now - ts);
    if distance <= MAX_I64 then distance <= window
    else distance == MAX_I64 + 1 || 0x1_0000_0000_0000_0000 - distance <= window
  }

  /** Whether a delivery once accepted is accepted, at every other clock reading. */
  lemma AcceptanceExact(mac: MacFn, cfg: Config, p: Presented, seen: i64, v: Verified, now: i64)
    requires Outcome(mac, cfg, p, seen) == Success(v)
    ensures Outcome(mac, cfg, p, now) == Success(v) <==>
            CountsAsFresh(now, v.timestamp, cfg.freshnessSecs)
  {
    VerdictOverTime(mac, cfg, p, seen, now);
    WrappedSkewExact(now, v.timestamp);
  }

  /**
   A delivery once accepted is accepted exactly inside the closed window around its timestamp, at
   every clock reading whose distance from the timestamp fits in 64 bits.
   */
  lemma AcceptanceWindow(mac: MacFn, cfg: Config, p: Presented, seen: i64, v: Verified, now: i64)
    requires Outcome(mac, cfg, p, seen) == Success(v)
    requires Magnitude(now - v.timestamp) <= MAX_I64
    ensures Outcome(mac, cfg, p, now) == Success(v) <==>
            v.timestamp - cfg.freshnessSecs <= now <= v.timestamp + cfg.freshnessSecs
  {
    AcceptanceExact(mac, cfg, p, seen, v, now);
  }

  /** No clock reading from `now` on accepts the delivery. */
  ghost predicate StaysRefused(mac: MacFn, cfg: Config, p: Presented, now: i64) {
    forall later: i64 :: now <= later ==> Outcome(mac, cfg, p, later).Failure?
  }

  /**
   A delivery found too late stays refused at every later time exactly when its timestamp is not
   negative, or the distance had already passed the wrap-around and even the last clock reading
   leaves the wrapped distance outside the window.
   */
  lemma LateStaysLateExact(mac: MacFn, cfg: Config, p: Presented, ts: i64, now: i64, skew: i64)
    requires Outcome(mac, cfg, p, now) == Failure(Stale(ts, now, skew)) && ts <= now
    ensures StaysRefused(mac, cfg, p, now) <==>
            0 <= ts || (now - ts > MAX_I64 + 1 && cfg.freshnessSecs < ts + MAX_I64 + 2)
  {
    if 0 <= ts || (now - ts > MAX_I64 + 1 && cfg.freshnessSecs < ts + MAX_I64 + 2) {
      forall later: i64 | now <= later ensures Outcome(mac, cfg, p, later).Failure? {
        RefusedWhenOutside(mac, cfg, p, ts, now, later);
      }
    } else {
      var back: i64 := if now - ts <= MAX_I64 + 1 then ts + MAX_I64 + 1 else MAX_I64;
      RefusedWhenOutside(mac, cfg, p, ts, now, back);
      assert now <= back && Outcome(mac, cfg, p, back).Success?;
    }
  }

  lemma RefusedWhenOutside(mac: MacFn, cfg: Config, p: Presented, ts: i64, now: i64, later: i64)
    requires Outcome(mac, cfg, p, now) == Failure(Stale(ts, now, Skew(now, ts))) && ts <= now
    ensures Outcome(mac, cfg, p, later).Failure? <==> !CountsAsFresh(later, ts, cfg.freshnessSecs)
    ensures !CountsAsFresh(now, ts, cfg.freshnessSecs)
  {
    WrappedSkewExact(now, ts);
    WrappedSkewExact(later, ts);
  }

  /** The same settings with a window so wide that every skew is within it. */
  function Timeless(cfg: Config): Config {
    cfg.(freshnessSecs := MAX_I64)
  }

  /**
   Under a negative window a delivery is accepted exactly when nothing but its age is against it
   and the clock is 2^63 seconds away from its timestamp; so never at nonnegative readings.
   */
  lemma NegativeWindowExact(mac: MacFn, cfg: Config, p: Presented, now: i64, v: Verified)
    requires cfg.freshnessSecs < 0
    ensures Outcome(mac, cfg, p, now) == Success(v) <==>
            Outcome(mac, Timeless(cfg), p, now) == Success(v)
            && Magnitude(now - v.timestamp) == MAX_I64 + 1
    ensures 0 <= now && 0 <= v.timestamp ==> Outcome(mac, cfg, p, now) != Success(v)
  {
    WrappedSkewExact(now, v.timestamp);
  }

  // ---- Plain deliveries ---------------------------------------------------------------------

  /** A delivery of either scheme, its headers exactly as signed. */
  function PlainDelivery(mac: MacFn, secret: Bytes, scheme: Scheme, text: string, nonce: string,
                         body: Bytes): Presented
  {
    Presented(Some(SignatureText(mac, secret, SignedString(scheme, text, nonce, body))),
              Some(text), if scheme == Canonical then Some(nonce) else None, body)
  }

  lemma PrefixedIsTrimmed(hex: string)
    requires hex != "" && !IsWhitespace(hex[|hex| - 1])
    ensures Trim("sha256=" + hex) == "sha256=" + hex
  {
    var header := "sha256=" + hex;
    assert header[0] == 's' && header[|header| - 1] == hex[|hex| - 1];
    TrimOfTrimmed(header);
  }

  lemma SignatureTextSpells(mac: MacFn, secret: Bytes, message: Bytes)
    ensures Spells(SignatureText(mac, secret, message), mac(secret, message))
    ensures IsWellFormed(SignatureText(mac, secret, message))
  {
    var tag := mac(secret, message);
    var hex := HexText(tag);
    HexTextIsHex(tag);
    HexRoundTrip(tag);
    PrefixedIsTrimmed(hex);
    var header := PREFIX + hex;
    assert header[..7] == PREFIX && header[7..] == hex;
  }

  /** A plain delivery of any integer text and any fitting, trimmed nonce verifies while fresh. */
  lemma PlainDeliveryVerifies(mac: MacFn, cfg: Config, scheme: Scheme, text: string, nonce: string,
                              body: Bytes, ts: i64, now: i64)
    requires scheme in cfg.accepted && SchemeFits(scheme, nonce) && IsTrimmed(nonce)
    requires ParseI64(text) == Some(ts)
    ensures Outcome(mac, cfg, PlainDelivery(mac, cfg.secret, scheme, text, nonce, body), now) ==
            if Skew(now, ts) <= cfg.freshnessSecs then Success(Verified(nonce, ts, scheme))
            else Failure(Stale(ts, now, Skew(now, ts)))
  {
    ParsedTextIsPlain(text);
    TrimOfTrimmed(text);
    TrimOfTrimmed(nonce);
    SignatureTextSpells(mac, cfg.secret, SignedString(scheme, text, nonce, body));
  }

  /** For every negative timestamp: a delivery found too late at `now` that a later clock accepts. */
  lemma LateDeliveryReturns(mac: MacFn, cfg: Config, ts: i64, now: i64)
    requires Canonical in cfg.accepted && ts < 0
    requires ts <= now && cfg.freshnessSecs < now - ts <= MAX_I64
    ensures var p := PlainDelivery(mac, cfg.secret, Canonical, PrintI64(ts), "n", []);
            && Outcome(mac, cfg, p, now) == Failure(Stale(ts, now, now - ts))
            && now < ts + MAX_I64 + 1
            && Outcome(mac, cfg, p, ts + MAX_I64 + 1) == Success(Verified("n", ts, Canonical))
  {
    var text, back: i64 := PrintI64(ts), ts + MAX_I64 + 1;
    ParsePrintI64(ts);
    PlainDeliveryVerifies(mac, cfg, Canonical, text, "n", [], ts, now);
    PlainDeliveryVerifies(mac, cfg, Canonical, text, "n", [], ts, back);
    WrappedSkewExact(now, ts);
    WrappedSkewExact(back, ts);
  }

  // ---- Builder chains ----------------------------------------------------------------------

  /** The configuration after a chain of builder calls on a new verifier. */
  function Build(secret: Bytes, calls: seq<BuilderCall>): Config {
    if calls == [] then NewConfig(secret)
    else ApplyCall(Build(secret, calls[..|calls| - 1]), calls[|calls| - 1])
  }

  function LastFreshness(calls: seq<BuilderCall>): i64 {
    if calls == [] then 300
    else match calls[|calls| - 1]
         case WithFreshness(secs) => secs
         case AlsoAccept(_) => LastFreshness(calls[..|calls| - 1])
  }

  ghost predicate NoDuplicates<T>(s: seq<T>) {
    forall i, j :: 0 <= i < j < |s| ==> s[i] != s[j]
  }

  /** What a chain leaves behind, however long it is and in whatever order its calls come. */
  lemma {:induction false} BuildInvariant(secret: Bytes, calls: seq<BuilderCall>)
    ensures Build(secret, calls).secret == secret
    ensures Build(secret, calls).freshnessSecs == LastFreshness(calls)
    ensures NoDuplicates(Build(secret, calls).accepted)
    ensures Canonical in Build(secret, calls).accepted
    ensures LegacyNoNonce in Build(secret, calls).accepted <==> AlsoAccept(LegacyNoNonce) in calls
  {
    if calls != [] {
      var init, last := calls[..|calls| - 1], calls[|calls| - 1];
      BuildInvariant(secret, init);
      assert calls == init + [last];
    }
  }

  /** Two chains naming the same schemes and ending on the same window give the same verdicts. */
  lemma CallOrderIsIrrelevant(mac: MacFn, secret: Bytes, c1: seq<BuilderCall>, c2: seq<BuilderCall>,
                              p: Presented, now: i64)
    requires AlsoAccept(LegacyNoNonce) in c1 <==> AlsoAccept(LegacyNoNonce) in c2
    requires LastFreshness(c1) == LastFreshness(c2)
    ensures Outcome(mac, Build(secret, c1), p, now) == Outcome(mac, Build(secret, c2), p, now)
  {
    BuildInvariant(secret, c1);
    BuildInvariant(secret, c2);
    assert SchemeOf(p) in Build(secret, c1).accepted <==> SchemeOf(p) in Build(secret, c2).accepted;
  }

  /** On a built verifier a mismatch always is a MAC mismatch, never a refused canonical scheme. */
  lemma MismatchMeansMac(mac: MacFn, secret: Bytes, calls: seq<BuilderCall>, p: Presented, now: i64)
    ensures Outcome(mac, Build(secret, calls), p, now) == Failure(SignatureMismatch) <==>
            && p.signature.Some? && p.timestamp.Some? && AcceptedScheme(Build(secret, calls), p)
            && (exists hex :: CarriesHex(p, hex) && |hex| % 2 == 0)
            && !IsAuthentic(mac, secret, p)
  {
    BuildInvariant(secret, calls);
    RejectExact(mac, Build(secret, calls), p, now);
  }

  /**
   Accepting one more scheme is conservative: it changes a verdict only on a delivery without a
   nonce that used to be refused for lacking one.
   */
  lemma AlsoAcceptIsConservative(mac: MacFn, cfg: Config, scheme: Scheme, p: Presented, now: i64)
    requires Canonical in cfg.accepted
    ensures var wider := ApplyCall(cfg, AlsoAccept(scheme));
            Outcome(mac, wider, p, now) != Outcome(mac, cfg, p, now) ==>
            && CarriesNonce(p, "") && scheme == LegacyNoNonce
            && Outcome(mac, cfg, p, now) == Failure(MissingNonce)
    ensures Outcome(mac, cfg, p, now).Success? ==>
            Outcome(mac, ApplyCall(cfg, AlsoAccept(scheme)), p, now) == Outcome(mac, cfg, p, now)
    ensures !CarriesNonce(p, "") ==>
            Outcome(mac, ApplyCall(cfg, AlsoAccept(scheme)), p, now) == Outcome(mac, cfg, p, now)
  {
    NonceReading(p, "");
    assert NonceOf(p).Some? ==> NonceOf(p).value != "";
  }
}
