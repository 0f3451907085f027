/**
 The documented expand/contract rollout: the verifier accepts both schemes, the sender flips from
 legacy to canonical, the verifier drops legacy. Whatever was sent may arrive at any time, padded
 and in either hex case, any number of times; minting clocks need not agree with the verifier's.
 */
module WebhookRollout {
  import opened Wrappers
  import opened Text
  import opened Decimal
  import opened Hex
  import opened Framing
  import opened WebhookSig
  import opened WebhookVerdict
  import opened WebhookLaws

  /** Something a sender signed; a legacy message has the empty nonce. */
  datatype Message = Message(scheme: Scheme, mint: i64, nonce: string, body: Bytes)

  datatype Rollout = Rollout(clock: i64, verifier: Config, flipped: bool, sent: seq<Message>)

  datatype Event = Tick(to: i64) | Send(mint: i64, uuid: string, body: Bytes) | Flip | Drop

  function Tolerant(secret: Bytes, window: i64): Config {
    Build(secret, [AlsoAccept(LegacyNoNonce), WithFreshness(window)])
  }

  function Strict(secret: Bytes, window: i64): Config {
    Build(secret, [WithFreshness(window)])
  }

  /** Every legacy window has passed. */
  predicate LegacyIsOver(s: Rollout) {
    forall m <- s.sent :: m.scheme == LegacyNoNonce ==> m.mint + s.verifier.freshnessSecs < s.clock
  }

  /** The sender has flipped, and the last legacy window has passed. */
  predicate ReadyToDrop(s: Rollout) {
    s.flipped && LegacyIsOver(s)
  }

  /** One event. Messages carry nonnegative times and UUID nonces; `Drop` waits until ready. */
  function Step(s: Rollout, e: Event): Rollout {
    match e
    case Tick(to) => if s.clock <= to then s.(clock := to) else s
    case Send(mint, uuid, body) =>
      if mint < 0 || !IsUuidText(uuid) then s
      else s.(sent := s.sent + [if s.flipped then Message(Canonical, mint, uuid, body)
                                else Message(LegacyNoNonce, mint, "", body)])
    case Flip => s.(flipped := true)
    case Drop =>
      if ReadyToDrop(s) then
        s.(verifier := Strict(s.verifier.secret, s.verifier.freshnessSecs))
      else s
  }

  function Run(secret: Bytes, window: i64, start: i64, events: seq<Event>): Rollout {
    if events == [] then Rollout(start, Tolerant(secret, window), false, [])
    else Step(Run(secret, window, start, events[..|events| - 1]), events[|events| - 1])
  }

  // ---- Untampered deliveries ---------------------------------------------------------

  /** What the sender of a message put on the wire. */
  function OnWire(mac: MacFn, secret: Bytes, m: Message): Signed {
    var text := PrintI64(m.mint);
    Signed(SignatureText(mac, secret, SignedString(m.scheme, text, m.nonce, m.body)), text, m.nonce)
  }

  /** `p` is an untampered delivery of `m`, up to header padding and hex case. */
  ghost predicate Carries(mac: MacFn, secret: Bytes, m: Message, p: Presented) {
    var s := OnWire(mac, secret, m);
    && p.body == m.body
    && p.timestamp.Some? && IsPadded(p.timestamp.value, s.timestamp)
    && (if m.scheme == Canonical then p.nonce.Some? && IsPadded(p.nonce.value, s.nonce)
        else p.nonce.Some? ==> IsBlank(p.nonce.value))
    && exists hex :: CarriesHex(p, hex) && "sha256=" + Lower(hex) == s.signature
  }

  ghost predicate WellFormedMessage(m: Message) {
    0 <= m.mint && if m.scheme == Canonical then IsUuidText(m.nonce) else m.nonce == ""
  }

  lemma CarriedIsAuthentic(mac: MacFn, secret: Bytes, m: Message, p: Presented)
    requires WellFormedMessage(m) && Carries(mac, secret, m, p)
    ensures AuthenticAs(mac, secret, p, m.scheme, PrintI64(m.mint), m.nonce)
  {
    ParsePrintI64(m.mint);
    ParsedTextIsPlain(PrintI64(m.mint));
    if m.scheme == Canonical {
      UuidIsPlain(m.nonce);
    }
    var s := OnWire(mac, secret, m);
    var hex :| CarriesHex(p, hex) && "sha256=" + Lower(hex) == s.signature;
    assert s.signature[7..] == Lower(hex);
    assert Lower(hex) == HexText(mac(secret, SignedString(m.scheme, s.timestamp, m.nonce, p.body)));
  }

  /** What any verifier with the secret says of an untampered delivery. */
  function Expected(cfg: Config, m: Message, now: i64): Verdict {
    if m.scheme !in cfg.accepted then
      Failure(if m.scheme == Canonical then SignatureMismatch else MissingNonce)
    else if Skew(now, m.mint) <= cfg.freshnessSecs then Success(Verified(m.nonce, m.mint, m.scheme))
    else Failure(Stale(m.mint, now, Skew(now, m.mint)))
  }

  lemma CarriedVerdict(mac: MacFn, cfg: Config, m: Message, p: Presented, now: i64)
    requires WellFormedMessage(m) && Carries(mac, cfg.secret, m, p)
    ensures Outcome(mac, cfg, p, now) == Expected(cfg, m, now)
  {
    CarriedIsAuthentic(mac, cfg.secret, m, p);
    AuthenticReading(mac, cfg.secret, p, m.scheme, PrintI64(m.mint), m.nonce);
    SpellsReading(p, mac(cfg.secret, ExpectedMessage(p)));
    ParsePrintI64(m.mint);
  }

  // ---- What every run keeps ---------------------------------------------------------------

  ghost predicate Invariant(secret: Bytes, window: i64, s: Rollout) {
    && 0 <= s.clock
    && (s.verifier == Tolerant(secret, window)
        || (s.verifier == Strict(secret, window) && s.flipped && LegacyIsOver(s)))
    && forall m <- s.sent :: WellFormedMessage(m)
  }

  lemma ConfigsOfRollout(secret: Bytes, window: i64)
    ensures Tolerant(secret, window) == Config(secret, window, [Canonical, LegacyNoNonce])
    ensures Strict(secret, window) == Config(secret, window, [Canonical])
  {
    var c := [AlsoAccept(LegacyNoNonce), WithFreshness(window)];
    var d := [WithFreshness(window)];
    assert c[..1] == [AlsoAccept(LegacyNoNonce)] && c[..1][..0] == [] && d[..0] == [];
    assert Build(secret, c[..1][..0]) == NewConfig(secret);
    assert Build(secret, c[..1]) == ApplyCall(NewConfig(secret), AlsoAccept(LegacyNoNonce));
    assert Build(secret, d[..0]) == NewConfig(secret);
  }

  lemma StepKeepsInvariant(secret: Bytes, window: i64, s: Rollout, e: Event)
    requires Invariant(secret, window, s)
    ensures Invariant(secret, window, Step(s, e))
  {
    ConfigsOfRollout(secret, window);
  }

  lemma {:induction false} RunKeepsInvariant(secret: Bytes, window: i64, start: i64, events: seq<Event>)
    requires 0 <= start
    ensures Invariant(secret, window, Run(secret, window, start, events))
  {
    if events != [] {
      RunKeepsInvariant(secret, window, start, events[..|events| - 1]);
      StepKeepsInvariant(secret, window,
        Run(secret, window, start, events[..|events| - 1]), events[|events| - 1]);
    }
  }

  // ---- What every run does ----------------------------------------------------------------

  lemma RunExtends(secret: Bytes, window: i64, start: i64, events: seq<Event>, e: Event)
    ensures Run(secret, window, start, events + [e]) == Step(Run(secret, window, start, events), e)
  {
    assert (events + [e])[..|events|] == events;
  }

  /** The clock is the latest reading seen, and the sender has flipped exactly once told to. */
  lemma {:induction false} ClockAndFlipExact(secret: Bytes, window: i64, start: i64, events: seq<Event>)
    ensures var s := Run(secret, window, start, events);
      && start <= s.clock && (s.clock == start || Tick(s.clock) in events)
      && (forall t: i64 :: Tick(t) in events ==> t <= s.clock)
      && (s.flipped <==> Flip in events)
  {
    if events != [] {
      var init, last := events[..|events| - 1], events[|events| - 1];
      ClockAndFlipExact(secret, window, start, init);
      assert events == init + [last];
    }
  }

  /** Event `i` sends `m`: under a UUID nonce after the flip, as legacy before it. */
  ghost predicate SendsAt(events: seq<Event>, i: int, m: Message) {
    && 0 <= i < |events| && events[i].Send? && IsUuidText(events[i].uuid)
    && m.mint == events[i].mint >= 0 && m.body == events[i].body
    && if Flip in events[..i] then m.scheme == Canonical && m.nonce == events[i].uuid
       else m.scheme == LegacyNoNonce && m.nonce == ""
  }

  /** What a run has sent: exactly what its send events say, each under the scheme of its time. */
  lemma {:induction false} SentExact(secret: Bytes, window: i64, start: i64, events: seq<Event>, m: Message)
    ensures m in Run(secret, window, start, events).sent <==> exists i :: SendsAt(events, i, m)
  {
    if events != [] {
      var init, last := events[..|events| - 1], events[|events| - 1];
      SentExact(secret, window, start, init, m);
      ClockAndFlipExact(secret, window, start, init);
      forall i | 0 <= i < |init| ensures SendsAt(events, i, m) <==> SendsAt(init, i, m) {
        assert events[..i] == init[..i];
      }
      var before, after := Run(secret, window, start, init).sent, Run(secret, window, start, events).sent;
      assert m in after <==> m in before || SendsAt(events, |init|, m) by {
        if after != before {
          assert after == before + [after[|before|]];
        }
      }
      if i :| SendsAt(events, i, m) {
        assert i == |init| || SendsAt(init, i, m);
      }
      if i :| SendsAt(init, i, m) {
        assert SendsAt(events, i, m);
      }
    }
  }

  /**
   `Drop` takes effect exactly when the sender was told to flip and every legacy window has
   passed; until then the verifier accepts both schemes.
   */
  lemma DropEffectExact(secret: Bytes, window: i64, start: i64, events: seq<Event>)
    requires 0 <= start
    ensures var s := Run(secret, window, start, events);
            Run(secret, window, start, events + [Drop]).verifier ==
            if Flip in events && forall m <- s.sent :: m.scheme == LegacyNoNonce ==> m.mint + window < s.clock
            then Config(secret, window, [Canonical])
            else Config(secret, window, [Canonical, LegacyNoNonce])
  {
    RunKeepsInvariant(secret, window, start, events);
    ConfigsOfRollout(secret, window);
    ClockAndFlipExact(secret, window, start, events);
    RunExtends(secret, window, start, events, Drop);
  }

  /** Every rollout can be finished: flip, wait until the last legacy window has passed, drop. */
  lemma RolloutCompletes(secret: Bytes, window: i64, start: i64, events: seq<Event>, later: i64)
    requires 0 <= start
    requires forall e <- events :: e.Send? ==> e.mint + window < later
    ensures Run(secret, window, start, events + [Flip] + [Tick(later)] + [Drop]).verifier
            == Config(secret, window, [Canonical])
  {
    var waited := events + [Flip] + [Tick(later)];
    var s := Run(secret, window, start, waited);
    ClockAndFlipExact(secret, window, start, waited);
    assert waited[|events|] == Flip && waited[|events| + 1] == Tick(later);
    forall m <- s.sent ensures m.mint + window < s.clock {
      SentExact(secret, window, start, waited, m);
      var i :| SendsAt(waited, i, m);
      assert waited[i] in events;
    }
    DropEffectExact(secret, window, start, waited);
  }

  // ---- No delivery is lost ---------------------------------------------------------------------

  /**
   In every state that any run reaches, every untampered delivery of anything ever sent, in either
   scheme, is accepted with its own parts while fresh and refused otherwise: no lockstep deploy.
   */
  lemma FreshAlwaysVerifies(mac: MacFn, secret: Bytes, window: i64, start: i64, events: seq<Event>,
                            m: Message, p: Presented)
    requires 0 <= start
    requires m in Run(secret, window, start, events).sent && Carries(mac, secret, m, p)
    ensures var s := Run(secret, window, start, events);
            if Magnitude(s.clock - m.mint) <= window
            then Outcome(mac, s.verifier, p, s.clock) == Success(Verified(m.nonce, m.mint, m.scheme))
            else Outcome(mac, s.verifier, p, s.clock).Failure?
  {
    var s := Run(secret, window, start, events);
    RunKeepsInvariant(secret, window, start, events);
    SentIsAcceptedOrLate(secret, window, s, m);
    CarriedVerdict(mac, s.verifier, m, p, s.clock);
  }

  lemma SentIsAcceptedOrLate(secret: Bytes, window: i64, s: Rollout, m: Message)
    requires Invariant(secret, window, s) && m in s.sent
    ensures WellFormedMessage(m) && s.verifier.secret == secret && s.verifier.freshnessSecs == window
    ensures m.scheme in s.verifier.accepted || m.mint + window < s.clock
    ensures Skew(s.clock, m.mint) == Magnitude(s.clock - m.mint)
  {
    ConfigsOfRollout(secret, window);
    NonnegativeReadingsFit(s.clock, m.mint);
  }

  // ---- When dropping is harmless ----------------------------------------------------------------

  /** From now on, the strict verifier agrees with the tolerant one on what the latter accepts. */
  ghost predicate DropIsHarmless(mac: MacFn, secret: Bytes, window: i64, s: Rollout) {
    forall m, p, t: i64 {:trigger Carries(mac, secret, m, p), Outcome(mac, Strict(secret, window), p, t)} ::
      m in s.sent && Carries(mac, secret, m, p) && s.clock <= t
      && Outcome(mac, Tolerant(secret, window), p, t).Success? ==>
      Outcome(mac, Strict(secret, window), p, t) == Outcome(mac, Tolerant(secret, window), p, t)
  }

  /** A delivery of `m` exactly as its sender emitted it. */
  function Plain(mac: MacFn, secret: Bytes, m: Message): Presented {
    PlainDelivery(mac, secret, m.scheme, PrintI64(m.mint), m.nonce, m.body)
  }

  lemma PaddedAsIs(s: string)
    ensures IsPadded(s, s)
  {
    assert s == "" + s + "";
    assert IsBlank("");
  }

  lemma PlainCarries(mac: MacFn, secret: Bytes, m: Message)
    ensures Carries(mac, secret, m, Plain(mac, secret, m))
  {
    var s, p := OnWire(mac, secret, m), Plain(mac, secret, m);
    var hex := HexText(mac(secret, SignedString(m.scheme, s.timestamp, m.nonce, m.body)));
    PaddedAsIs(s.signature);
    PaddedAsIs(s.timestamp);
    PaddedAsIs(s.nonce);
    HexTextIsHex(mac(secret, SignedString(m.scheme, s.timestamp, m.nonce, m.body)));
    assert CarriesHex(p, hex) && "sha256=" + Lower(hex) == s.signature;
  }

  /**
   Dropping legacy is harmless to what was sent exactly when every legacy window has passed: what
   the strict verifier then refuses would have been stale. (With a negative window nothing was
   acceptable in the first place.)
   */
  lemma DropExact(mac: MacFn, secret: Bytes, window: i64, start: i64, events: seq<Event>)
    requires 0 <= start
    ensures var s := Run(secret, window, start, events);
            DropIsHarmless(mac, secret, window, s) <==>
            (0 <= window ==>
               forall m <- s.sent :: m.scheme == LegacyNoNonce ==> m.mint + window < s.clock)
  {
    var s := Run(secret, window, start, events);
    RunKeepsInvariant(secret, window, start, events);
    ConfigsOfRollout(secret, window);
    if DropIsHarmless(mac, secret, window, s) && 0 <= window {
      forall m <- s.sent | m.scheme == LegacyNoNonce ensures m.mint + window < s.clock {
        PassedIfHarmless(mac, secret, window, s, m);
      }
    }
    if 0 <= window ==> forall m <- s.sent :: m.scheme == LegacyNoNonce ==> m.mint + window < s.clock {
      forall m, p, t: i64 | m in s.sent && Carries(mac, secret, m, p) && s.clock <= t
                            && Outcome(mac, Tolerant(secret, window), p, t).Success?
        ensures Outcome(mac, Strict(secret, window), p, t) == Outcome(mac, Tolerant(secret, window), p, t)
      {
        CarriedVerdict(mac, Tolerant(secret, window), m, p, t);
        CarriedVerdict(mac, Strict(secret, window), m, p, t);
        NonnegativeReadingsFit(t, m.mint);
      }
    }
  }

  lemma PassedIfHarmless(mac: MacFn, secret: Bytes, window: i64, s: Rollout, m: Message)
    requires 0 <= window && Invariant(secret, window, s)
    requires DropIsHarmless(mac, secret, window, s)
    requires m in s.sent && m.scheme == LegacyNoNonce
    ensures m.mint + window < s.clock
  {
    ConfigsOfRollout(secret, window);
    var p, t := Plain(mac, secret, m), if s.clock <= m.mint then m.mint else s.clock;
    PlainCarries(mac, secret, m);
    CarriedVerdict(mac, Tolerant(secret, window), m, p, t);
    CarriedVerdict(mac, Strict(secret, window), m, p, t);
    NonnegativeReadingsFit(t, m.mint);
  }
}
