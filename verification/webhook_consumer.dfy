/**
 The documented consumer: it verifies each delivery and takes it unless it has taken its like. A
 canonical delivery is known by its nonce, a legacy one, which has none, by a field of its body; a
 record is forgotten some time after its timestamp. Every run is a sequence of clock ticks,
 deliveries (by anyone, of anything) and forgettings.
 */
module WebhookConsumer {
  import opened Wrappers
  import opened Text
  import opened Decimal
  import opened Hex
  import opened Framing
  import opened WebhookSig
  import opened WebhookVerdict
  import opened WebhookLaws

  /** One delivery taken: its scheme, timestamp text, nonce and body, and the verified timestamp. */
  datatype Taken = Taken(scheme: Scheme, text: string, nonce: string, body: Bytes, timestamp: i64)

  /** What a delivery is known by. */
  datatype Key = Nonce(nonce: string) | Field(value: Bytes)

  datatype Consumer = Consumer(clock: i64, seen: map<Key, i64>, log: seq<Taken>)

  datatype Event = Tick(to: i64) | Deliver(p: Presented) | Forget(key: Key)

  /**
   How long past its timestamp a record is kept, whether a nonce with a dot in it is refused, and
   the body field that legacy deliveries are known by. The documented consumer does not look inside
   the nonce.
   */
  datatype Policy = Policy(retention: nat, refusesDotted: bool, bodyField: Bytes -> Bytes)

  function KeyOf(policy: Policy, scheme: Scheme, nonce: string, body: Bytes): Key {
    if scheme == Canonical then Nonce(nonce) else Field(policy.bodyField(body))
  }

  function KeyOfTaken(policy: Policy, t: Taken): Key {
    KeyOf(policy, t.scheme, t.nonce, t.body)
  }

  predicate Refuses(policy: Policy, nonce: string) {
    policy.refusesDotted && '.' in nonce
  }

  /** The entry that a verified delivery makes. */
  function EntryOf(p: Presented, v: Verified): Taken
    requires p.timestamp.Some?
  {
    Taken(v.scheme, Trim(p.timestamp.value), v.nonce, p.body, v.timestamp)
  }

  function Take(policy: Policy, s: Consumer, t: Taken): Consumer {
    s.(seen := s.seen[KeyOfTaken(policy, t) := t.timestamp], log := s.log + [t])
  }

  /** One event. The clock never goes back, and a record is kept for its retention. */
  function Step(mac: MacFn, cfg: Config, policy: Policy, s: Consumer, e: Event): Consumer {
    match e
    case Tick(to) => if s.clock <= to then s.(clock := to) else s
    case Forget(key) =>
      if key in s.seen && s.seen[key] + policy.retention < s.clock then s.(seen := s.seen - {key}) else s
    case Deliver(p) =>
      match Outcome(mac, cfg, p, s.clock)
      case Failure(_) => s
      case Success(v) =>
        if KeyOfTaken(policy, EntryOf(p, v)) in s.seen || Refuses(policy, v.nonce) then s
        else Take(policy, s, EntryOf(p, v))
  }

  function Run(mac: MacFn, cfg: Config, policy: Policy, start: i64, events: seq<Event>): Consumer {
    if events == [] then Consumer(start, map[], [])
    else Step(mac, cfg, policy,
              Run(mac, cfg, policy, start, events[..|events| - 1]), events[|events| - 1])
  }

  lemma RunExtends(mac: MacFn, cfg: Config, policy: Policy, start: i64, events: seq<Event>, e: Event)
    ensures Run(mac, cfg, policy, start, events + [e]) ==
            Step(mac, cfg, policy, Run(mac, cfg, policy, start, events), e)
  {
    assert (events + [e])[..|events|] == events;
  }

  function SignedBytes(t: Taken): Bytes {
    SignedString(t.scheme, t.text, t.nonce, t.body)
  }

  // ---- What every run keeps ----------------------------------------------------------

  ghost predicate WellTaken(cfg: Config, policy: Policy, t: Taken) {
    && ParseI64(t.text) == Some(t.timestamp)
    && t.scheme in cfg.accepted && SchemeFits(t.scheme, t.nonce) && IsTrimmed(t.nonce)
    && !Refuses(policy, t.nonce)
    && (0 <= t.timestamp ==> 0 <= cfg.freshnessSecs)
  }

  /** Until its window has passed, a taken delivery is on record with its timestamp. */
  ghost predicate Remembered(cfg: Config, policy: Policy, s: Consumer, t: Taken) {
    var key := KeyOfTaken(policy, t);
    (key in s.seen && s.seen[key] == t.timestamp) || t.timestamp + cfg.freshnessSecs < s.clock
  }

  ghost predicate AllRemembered(cfg: Config, policy: Policy, s: Consumer) {
    forall t <- s.log :: WellTaken(cfg, policy, t) && (0 <= t.timestamp ==> Remembered(cfg, policy, s, t))
  }

  /** Under one key, no nonnegative timestamp is taken twice. */
  ghost predicate KeyTimesDistinct(policy: Policy, log: seq<Taken>) {
    forall i, j ::
      0 <= i < j < |log| && 0 <= log[i].timestamp && KeyOfTaken(policy, log[i]) == KeyOfTaken(policy, log[j])
      ==> log[i].timestamp != log[j].timestamp
  }

  /** Only what was taken is on record. */
  ghost predicate SeenWereTaken(policy: Policy, s: Consumer) {
    forall key <- s.seen :: exists t <- s.log :: KeyOfTaken(policy, t) == key
  }

  ghost predicate Invariant(cfg: Config, policy: Policy, s: Consumer) {
    && 0 <= s.clock && AllRemembered(cfg, policy, s)
    && KeyTimesDistinct(policy, s.log) && SeenWereTaken(policy, s)
  }

  lemma EntryIsWellTaken(mac: MacFn, cfg: Config, policy: Policy, p: Presented, now: i64, v: Verified)
    requires Outcome(mac, cfg, p, now) == Success(v) && !Refuses(policy, v.nonce) && 0 <= now
    ensures WellTaken(cfg, policy, EntryOf(p, v))
  {
    if p.nonce.Some? {
      TrimIsTrimmed(p.nonce.value);
    }
    if 0 <= v.timestamp {
      NonnegativeReadingsFit(now, v.timestamp);
    }
  }

  /** A fresh delivery that is not on record differs from all that were taken before. */
  lemma TakingIsNew(cfg: Config, policy: Policy, s: Consumer, t: Taken)
    requires Invariant(cfg, policy, s) && KeyOfTaken(policy, t) !in s.seen
    requires Skew(s.clock, t.timestamp) <= cfg.freshnessSecs
    ensures forall u <- s.log :: 0 <= u.timestamp && KeyOfTaken(policy, u) == KeyOfTaken(policy, t) ==>
              u.timestamp != t.timestamp
  {
    if 0 <= t.timestamp {
      NonnegativeReadingsFit(s.clock, t.timestamp);
    }
  }

  lemma TakingKeepsInvariant(cfg: Config, policy: Policy, s: Consumer, t: Taken)
    requires Invariant(cfg, policy, s) && WellTaken(cfg, policy, t)
    requires KeyOfTaken(policy, t) !in s.seen && Skew(s.clock, t.timestamp) <= cfg.freshnessSecs
    ensures Invariant(cfg, policy, Take(policy, s, t))
  {
    var s' := Take(policy, s, t);
    TakingIsRemembered(cfg, policy, s, t);
    TakenIsOnRecord(policy, s, t);
    TakingIsNew(cfg, policy, s, t);
    assert KeyTimesDistinct(policy, s'.log);
  }

  lemma TakingIsRemembered(cfg: Config, policy: Policy, s: Consumer, t: Taken)
    requires Invariant(cfg, policy, s) && WellTaken(cfg, policy, t) && KeyOfTaken(policy, t) !in s.seen
    ensures AllRemembered(cfg, policy, Take(policy, s, t))
  {
    var s' := Take(policy, s, t);
    forall u <- s'.log
      ensures WellTaken(cfg, policy, u) && (0 <= u.timestamp ==> Remembered(cfg, policy, s', u))
    {
      assert u in s.log || u == t;
    }
  }

  lemma TakenIsOnRecord(policy: Policy, s: Consumer, t: Taken)
    requires SeenWereTaken(policy, s)
    ensures SeenWereTaken(policy, Take(policy, s, t))
  {
    var s' := Take(policy, s, t);
    forall key <- s'.seen ensures exists u <- s'.log :: KeyOfTaken(policy, u) == key {
      if key == KeyOfTaken(policy, t) {
        assert s'.log[|s.log|] == t;
      } else {
        assert key in s.seen;
        var u :| u in s.log && KeyOfTaken(policy, u) == key;
        assert u in s'.log;
      }
    }
  }

  lemma StepKeepsInvariant(mac: MacFn, cfg: Config, policy: Policy, s: Consumer, e: Event)
    requires policy.retention >= cfg.freshnessSecs && Invariant(cfg, policy, s)
    ensures Invariant(cfg, policy, Step(mac, cfg, policy, s, e))
  {
    if e.Deliver? {
      var r := Outcome(mac, cfg, e.p, s.clock);
      if r.Success? && KeyOfTaken(policy, EntryOf(e.p, r.value)) !in s.seen
         && !Refuses(policy, r.value.nonce)
      {
        EntryIsWellTaken(mac, cfg, policy, e.p, s.clock, r.value);
        TakingKeepsInvariant(cfg, policy, s, EntryOf(e.p, r.value));
      }
    }
  }

  lemma {:induction false} RunKeepsInvariant(mac: MacFn, cfg: Config, policy: Policy, start: i64,
                                             events: seq<Event>)
    requires 0 <= start && policy.retention >= cfg.freshnessSecs
    ensures Invariant(cfg, policy, Run(mac, cfg, policy, start, events))
  {
    if events != [] {
      RunKeepsInvariant(mac, cfg, policy, start, events[..|events| - 1]);
      StepKeepsInvariant(mac, cfg, policy,
        Run(mac, cfg, policy, start, events[..|events| - 1]), events[|events| - 1]);
    }
  }

  // ---- Two entries of one run ------------------------------------------------------------

  /** Two entries over the same bytes agree on their timestamp text and differ in their key. */
  lemma SameBytesOtherKey(mac: MacFn, cfg: Config, policy: Policy, start: i64, events: seq<Event>,
                          i: nat, j: nat)
    requires 0 <= start && policy.retention >= cfg.freshnessSecs
    requires i < j < |Run(mac, cfg, policy, start, events).log|
    ensures var a, b := Run(mac, cfg, policy, start, events).log[i],
                        Run(mac, cfg, policy, start, events).log[j];
            && WellTaken(cfg, policy, a) && WellTaken(cfg, policy, b)
            && '.' !in a.text && '.' !in b.text
            && (0 <= a.timestamp && SignedBytes(a) == SignedBytes(b) ==>
                  a.text == b.text && KeyOfTaken(policy, a) != KeyOfTaken(policy, b))
  {
    RunKeepsInvariant(mac, cfg, policy, start, events);
    var s := Run(mac, cfg, policy, start, events);
    var a, b := s.log[i], s.log[j];
    assert a in s.log && b in s.log;
    ParsedTextIsPlain(a.text);
    ParsedTextIsPlain(b.text);
    SignedCoincide(a.scheme, a.text, a.nonce, a.body, b.scheme, b.text, b.nonce, b.body);
  }

  /** `b` takes the canonical payload of `a` for the body of a legacy delivery. */
  ghost predicate Respells(a: Taken, b: Taken) {
    a.scheme == Canonical && b.scheme == LegacyNoNonce && b.body == Utf8(a.nonce) + [DOT] + a.body
  }

  /** Of two canonical entries, the nonce of `b` is that of `a` plus a dotted piece of its body. */
  ghost predicate Extends(a: Taken, b: Taken) {
    && a.scheme == Canonical && b.scheme == Canonical
    && exists rest :: Absorbs(a.nonce, a.body, rest, b.nonce, b.body)
  }

  /**
   Two entries of a run were signed over the same bytes exactly when their timestamp texts agree
   and one extends or respells the other. Two legacy entries never were.
   */
  lemma SameBytesExact(mac: MacFn, cfg: Config, policy: Policy, start: i64, events: seq<Event>,
                       i: nat, j: nat)
    requires 0 <= start && policy.retention >= cfg.freshnessSecs
    requires i < j < |Run(mac, cfg, policy, start, events).log|
    requires 0 <= Run(mac, cfg, policy, start, events).log[i].timestamp
    ensures var a, b := Run(mac, cfg, policy, start, events).log[i],
                        Run(mac, cfg, policy, start, events).log[j];
            SignedBytes(a) == SignedBytes(b) <==>
            a.text == b.text && (Extends(a, b) || Extends(b, a) || Respells(a, b) || Respells(b, a))
  {
    var a, b := Run(mac, cfg, policy, start, events).log[i], Run(mac, cfg, policy, start, events).log[j];
    SameBytesOtherKey(mac, cfg, policy, start, events, i, j);
    SignedCoincide(a.scheme, a.text, a.nonce, a.body, b.scheme, b.text, b.nonce, b.body);
    PayloadsCoincide(a.nonce, a.body, b.nonce, b.body);
  }

  // ---- Nothing genuine is lost --------------------------------------------------------------

  lemma MintedTextIsRead(mac: MacFn, secret: Bytes, body: Bytes, mint: i64, uuid: string, p: Presented)
    requires Delivers(p, SignedAt(mac, secret, body, mint, uuid), body)
    ensures Trim(p.timestamp.value) == PrintI64(mint)
  {
    var ts := PrintI64(mint);
    DeliveredReading(p, SignedAt(mac, secret, body, mint, uuid), body, mac, secret,
                     CanonicalString(ts, uuid, body));
    ParsePrintI64(mint);
    ParsedTextIsPlain(ts);
    TrimOfTrimmed(ts);
  }

  lemma UnseenIsTaken(mac: MacFn, cfg: Config, policy: Policy, s: Consumer, p: Presented, v: Verified)
    requires SeenWereTaken(policy, s)
    requires Outcome(mac, cfg, p, s.clock) == Success(v) && !Refuses(policy, v.nonce)
    requires forall t <- s.log :: KeyOfTaken(policy, t) != KeyOf(policy, v.scheme, v.nonce, p.body)
    ensures p.timestamp.Some?
    ensures Step(mac, cfg, policy, s, Deliver(p)) == Take(policy, s, EntryOf(p, v))
  {
    assert KeyOf(policy, v.scheme, v.nonce, p.body) !in s.seen;
  }

  lemma MintedIsTaken(mac: MacFn, cfg: Config, policy: Policy, s: Consumer, body: Bytes, mint: i64,
                      uuid: string, p: Presented)
    requires 0 <= s.clock && SeenWereTaken(policy, s) && 0 <= mint && IsUuidText(uuid)
    requires Canonical in cfg.accepted
    requires Delivers(p, SignedAt(mac, cfg.secret, body, mint, uuid), body)
    requires Magnitude(s.clock - mint) <= cfg.freshnessSecs && forall t <- s.log :: t.nonce != uuid
    ensures Step(mac, cfg, policy, s, Deliver(p)) ==
            Take(policy, s, Taken(Canonical, PrintI64(mint), uuid, body, mint))
  {
    SignThenVerify(mac, cfg, body, mint, uuid, p, s.clock);
    MintedTextIsRead(mac, cfg.secret, body, mint, uuid, p);
    assert '.' !in uuid by { UuidIsPlain(uuid); }
    UnseenIsTaken(mac, cfg, policy, s, p, Verified(uuid, mint, Canonical));
  }

  /**
   After any run, a minted delivery that is fresh and whose nonce was never taken is taken, with
   exactly the parts that were signed, and is on record from then on.
   */
  lemma FreshNonceIsTaken(mac: MacFn, cfg: Config, policy: Policy, start: i64, events: seq<Event>,
                          body: Bytes, mint: i64, uuid: string, p: Presented)
    requires 0 <= start && 0 <= mint && IsUuidText(uuid)
    requires policy.retention >= cfg.freshnessSecs && Canonical in cfg.accepted
    requires Delivers(p, SignedAt(mac, cfg.secret, body, mint, uuid), body)
    requires Magnitude(Run(mac, cfg, policy, start, events).clock - mint) <= cfg.freshnessSecs
    requires forall t <- Run(mac, cfg, policy, start, events).log :: t.nonce != uuid
    ensures var s := Run(mac, cfg, policy, start, events);
            Run(mac, cfg, policy, start, events + [Deliver(p)]) ==
            s.(seen := s.seen[Nonce(uuid) := mint],
               log := s.log + [Taken(Canonical, PrintI64(mint), uuid, body, mint)])
  {
    RunKeepsInvariant(mac, cfg, policy, start, events);
    MintedIsTaken(mac, cfg, policy, Run(mac, cfg, policy, start, events), body, mint, uuid, p);
    RunExtends(mac, cfg, policy, start, events, Deliver(p));
  }

  lemma {:induction false} RunSeenWereTaken(mac: MacFn, cfg: Config, policy: Policy, start: i64,
                                            events: seq<Event>)
    ensures SeenWereTaken(policy, Run(mac, cfg, policy, start, events))
  {
    if events != [] {
      var s, e := Run(mac, cfg, policy, start, events[..|events| - 1]), events[|events| - 1];
      RunSeenWereTaken(mac, cfg, policy, start, events[..|events| - 1]);
      if e.Deliver? && Outcome(mac, cfg, e.p, s.clock).Success? {
        TakenIsOnRecord(policy, s, EntryOf(e.p, Outcome(mac, cfg, e.p, s.clock).value));
      }
    }
  }

  /** The entry is like the verified delivery: canonical with its nonce, or legacy with its field. */
  ghost predicate IsLike(policy: Policy, t: Taken, p: Presented, v: Verified) {
    && t.scheme == v.scheme
    && if v.scheme == Canonical then t.nonce == v.nonce
       else policy.bodyField(t.body) == policy.bodyField(p.body)
  }

  /**
   After any run, a delivery of either scheme that verifies, whose nonce is not refused and whose
   like was never taken, is taken with exactly the parts presented.
   */
  lemma FreshDeliveryIsTaken(mac: MacFn, cfg: Config, policy: Policy, start: i64, events: seq<Event>,
                             p: Presented, v: Verified)
    requires Outcome(mac, cfg, p, Run(mac, cfg, policy, start, events).clock) == Success(v)
    requires !(policy.refusesDotted && '.' in v.nonce)
    requires forall t <- Run(mac, cfg, policy, start, events).log :: !IsLike(policy, t, p, v)
    ensures p.timestamp.Some?
    ensures Run(mac, cfg, policy, start, events + [Deliver(p)]).log ==
            Run(mac, cfg, policy, start, events).log
            + [Taken(v.scheme, Trim(p.timestamp.value), v.nonce, p.body, v.timestamp)]
  {
    var s := Run(mac, cfg, policy, start, events);
    RunSeenWereTaken(mac, cfg, policy, start, events);
    UnseenIsTaken(mac, cfg, policy, s, p, v);
    RunExtends(mac, cfg, policy, start, events, Deliver(p));
  }

  /**
   After any run, a delivery whose like was taken, and is still in its window, changes nothing;
   nor does one whose nonce is refused.
   */
  lemma KnownDeliveryIsIgnored(mac: MacFn, cfg: Config, policy: Policy, start: i64, events: seq<Event>,
                               p: Presented, v: Verified)
    requires 0 <= start && policy.retention >= cfg.freshnessSecs
    requires Outcome(mac, cfg, p, Run(mac, cfg, policy, start, events).clock) == Success(v)
    requires || (policy.refusesDotted && '.' in v.nonce)
             || exists t <- Run(mac, cfg, policy, start, events).log ::
                  && IsLike(policy, t, p, v) && 0 <= t.timestamp
                  && Run(mac, cfg, policy, start, events).clock <= t.timestamp + cfg.freshnessSecs
    ensures Run(mac, cfg, policy, start, events + [Deliver(p)]) == Run(mac, cfg, policy, start, events)
  {
    var s := Run(mac, cfg, policy, start, events);
    RunKeepsInvariant(mac, cfg, policy, start, events);
    RunExtends(mac, cfg, policy, start, events, Deliver(p));
    if !Refuses(policy, v.nonce) {
      var t :| t in s.log && IsLike(policy, t, p, v) && 0 <= t.timestamp
               && s.clock <= t.timestamp + cfg.freshnessSecs;
      assert Remembered(cfg, policy, s, t);
      assert KeyOfTaken(policy, EntryOf(p, v)) == KeyOfTaken(policy, t);
    }
  }

  // ---- Which messages can be taken twice ---------------------------------------------------

  /** No run takes two deliveries, of whatever schemes, signed over these bytes. */
  ghost predicate AlwaysTakenOnce(mac: MacFn, cfg: Config, policy: Policy, message: Bytes) {
    forall start: i64, events: seq<Event> :: 0 <= start ==>
      TakenOnce(Run(mac, cfg, policy, start, events).log, message)
  }

  ghost predicate TakenOnce(log: seq<Taken>, message: Bytes) {
    forall i, j :: 0 <= i < j < |log| ==> !(SignedBytes(log[i]) == message == SignedBytes(log[j]))
  }

  /** The scheme and nonce under which a message can be presented. */
  datatype Reading = Reading(scheme: Scheme, nonce: string)

  /** A delivery of `body` under `r` frames the message and is not turned away for its shape. */
  ghost predicate IsReading(cfg: Config, policy: Policy, text: string, message: Bytes, r: Reading, body: Bytes) {
    && r.scheme in cfg.accepted && SchemeFits(r.scheme, r.nonce) && IsTrimmed(r.nonce)
    && !Refuses(policy, r.nonce)
    && SignedString(r.scheme, text, r.nonce, body) == message
  }

  /** The message cannot be read in two ways. */
  ghost predicate ReadsOneWay(cfg: Config, policy: Policy, text: string, message: Bytes) {
    forall r1, b1, r2, b2
      {:trigger IsReading(cfg, policy, text, message, r1, b1), IsReading(cfg, policy, text, message, r2, b2)} ::
      IsReading(cfg, policy, text, message, r1, b1) && IsReading(cfg, policy, text, message, r2, b2) ==> r1 == r2
  }

  /** The same signature and timestamp headers on one reading of a message. */
  function Presenting(signature: string, text: string, r: Reading, body: Bytes): Presented {
    Presented(Some(signature), Some(text), if r.scheme == Canonical then Some(r.nonce) else None, body)
  }

  /** A reading is taken whenever it is fresh and not on record. */
  lemma ReadingIsTaken(mac: MacFn, cfg: Config, policy: Policy, s: Consumer, text: string, ts: i64,
                       message: Bytes, r: Reading, body: Bytes)
    requires IsReading(cfg, policy, text, message, r, body)
    requires ParseI64(text) == Some(ts) && Skew(s.clock, ts) <= cfg.freshnessSecs
    requires KeyOf(policy, r.scheme, r.nonce, body) !in s.seen
    ensures Step(mac, cfg, policy, s,
                 Deliver(Presenting(SignatureText(mac, cfg.secret, message), text, r, body))) ==
            Take(policy, s, Taken(r.scheme, text, r.nonce, body, ts))
  {
    ParsedTextIsPlain(text);
    TrimOfTrimmed(text);
    PlainDeliveryVerifies(mac, cfg, r.scheme, text, r.nonce, body, ts, s.clock);
  }

  lemma RunOfTwo(mac: MacFn, cfg: Config, policy: Policy, start: i64, e1: Event, e2: Event)
    ensures Run(mac, cfg, policy, start, [e1, e2]) ==
            Step(mac, cfg, policy, Step(mac, cfg, policy, Consumer(start, map[], []), e1), e2)
  {
    assert [] + [e1] == [e1] && [e1] + [e2] == [e1, e2];
    RunExtends(mac, cfg, policy, start, [], e1);
    RunExtends(mac, cfg, policy, start, [e1], e2);
  }

  /** Two readings of one message, delivered one after the other, are both taken. */
  lemma ReadingsAreBothTaken(mac: MacFn, cfg: Config, policy: Policy, text: string, ts: i64,
                             message: Bytes, r1: Reading, b1: Bytes, r2: Reading, b2: Bytes)
    requires 0 <= cfg.freshnessSecs && ParseI64(text) == Some(ts) && r1 != r2
    requires IsReading(cfg, policy, text, message, r1, b1)
    requires IsReading(cfg, policy, text, message, r2, b2)
    ensures var signature := SignatureText(mac, cfg.secret, message);
            Run(mac, cfg, policy, ts,
                [Deliver(Presenting(signature, text, r1, b1)), Deliver(Presenting(signature, text, r2, b2))]).log
            == [Taken(r1.scheme, text, r1.nonce, b1, ts), Taken(r2.scheme, text, r2.nonce, b2, ts)]
  {
    var signature := SignatureText(mac, cfg.secret, message);
    var e1, e2 := Deliver(Presenting(signature, text, r1, b1)), Deliver(Presenting(signature, text, r2, b2));
    var s0, t1 := Consumer(ts, map[], []), Taken(r1.scheme, text, r1.nonce, b1, ts);
    WrappedSkewExact(ts, ts);
    ReadingIsTaken(mac, cfg, policy, s0, text, ts, message, r1, b1);
    var s1 := Take(policy, s0, t1);
    assert KeyOf(policy, r2.scheme, r2.nonce, b2) !in s1.seen;
    ReadingIsTaken(mac, cfg, policy, s1, text, ts, message, r2, b2);
    RunOfTwo(mac, cfg, policy, ts, e1, e2);
  }

  /**
   Which signed bytes a consumer takes at most once over all runs, keeping records for the window:
   exactly those that can be read in one way only (or all, if the window is negative and takes
   nothing).
   */
  lemma TakenOnceExact(mac: MacFn, cfg: Config, policy: Policy, text: string, ts: i64, message: Bytes)
    requires policy.retention >= cfg.freshnessSecs
    requires ParseI64(text) == Some(ts) && 0 <= ts && Utf8(text) + [DOT] <= message
    ensures AlwaysTakenOnce(mac, cfg, policy, message) <==>
            (0 <= cfg.freshnessSecs ==> ReadsOneWay(cfg, policy, text, message))
  {
    if AlwaysTakenOnce(mac, cfg, policy, message) && 0 <= cfg.freshnessSecs {
      forall r1, b1, r2, b2 | IsReading(cfg, policy, text, message, r1, b1)
                              && IsReading(cfg, policy, text, message, r2, b2)
        ensures r1 == r2
      {
        if r1 != r2 {
          RepeatIsTakenTwice(mac, cfg, policy, text, ts, message, r1, b1, r2, b2);
        }
      }
    }
    if 0 <= cfg.freshnessSecs ==> ReadsOneWay(cfg, policy, text, message) {
      forall start: i64, events: seq<Event> | 0 <= start
        ensures TakenOnce(Run(mac, cfg, policy, start, events).log, message)
      {
        OneReadingTakenOnce(mac, cfg, policy, text, ts, message, start, events);
      }
    }
  }

  lemma RepeatIsTakenTwice(mac: MacFn, cfg: Config, policy: Policy, text: string, ts: i64,
                           message: Bytes, r1: Reading, b1: Bytes, r2: Reading, b2: Bytes)
    requires 0 <= cfg.freshnessSecs && ParseI64(text) == Some(ts) && 0 <= ts && r1 != r2
    requires IsReading(cfg, policy, text, message, r1, b1)
    requires IsReading(cfg, policy, text, message, r2, b2)
    ensures !AlwaysTakenOnce(mac, cfg, policy, message) && !AlwaysAtMostOnceAt(mac, cfg, policy, ts)
  {
    ReadingsAreBothTaken(mac, cfg, policy, text, ts, message, r1, b1, r2, b2);
    var signature := SignatureText(mac, cfg.secret, message);
    var s := Run(mac, cfg, policy, ts,
      [Deliver(Presenting(signature, text, r1, b1)), Deliver(Presenting(signature, text, r2, b2))]);
    assert SignedBytes(s.log[0]) == message == SignedBytes(s.log[1]);
    assert !TakenOnce(s.log, message) && !AtMostOnceAt(s, ts);
  }

  lemma OneReadingTakenOnce(mac: MacFn, cfg: Config, policy: Policy, text: string, ts: i64,
                            message: Bytes, start: i64, events: seq<Event>)
    requires 0 <= start && policy.retention >= cfg.freshnessSecs
    requires ParseI64(text) == Some(ts) && 0 <= ts && Utf8(text) + [DOT] <= message
    requires 0 <= cfg.freshnessSecs ==> ReadsOneWay(cfg, policy, text, message)
    ensures TakenOnce(Run(mac, cfg, policy, start, events).log, message)
  {
    var log := Run(mac, cfg, policy, start, events).log;
    forall i, j | 0 <= i < j < |log|
      ensures !(SignedBytes(log[i]) == message == SignedBytes(log[j]))
    {
      var a, b := log[i], log[j];
      if SignedBytes(a) == message == SignedBytes(b) {
        SameBytesOtherKey(mac, cfg, policy, start, events, i, j);
        TextIsTheSigned(cfg, policy, text, message, a);
        TextIsTheSigned(cfg, policy, text, message, b);
        SignedCoincide(a.scheme, text, a.nonce, a.body, b.scheme, text, b.nonce, b.body);
        assert IsReading(cfg, policy, text, message, Reading(a.scheme, a.nonce), a.body);
        assert IsReading(cfg, policy, text, message, Reading(b.scheme, b.nonce), b.body);
        assert false;
      }
    }
  }

  /** An entry over the message carries the very timestamp text that the message starts with. */
  lemma TextIsTheSigned(cfg: Config, policy: Policy, text: string, message: Bytes, t: Taken)
    requires ParseI64(text).Some? && Utf8(text) + [DOT] <= message
    requires WellTaken(cfg, policy, t) && SignedBytes(t) == message
    ensures t.text == text
  {
    assert '.' !in text by { ParsedTextIsPlain(text); }
    assert '.' !in t.text by { ParsedTextIsPlain(t.text); }
    SignedRegroups(t.scheme, t.text, t.nonce, t.body);
    FirstTextIsUnique(text, t.text, Payload(t.scheme, t.nonce, t.body), message);
  }

  lemma FirstTextIsUnique(t1: string, t2: string, payload: Bytes, message: Bytes)
    requires '.' !in t1 && '.' !in t2
    requires Utf8(t1) + [DOT] <= message && message == Utf8(t2) + [DOT] + payload
    ensures t1 == t2
  {
    var rest := message[|Utf8(t1) + [DOT]|..];
    TimestampSplits(t1, rest, t2, payload);
  }

  // ---- Minted deliveries ------------------------------------------------------------------------

  /** The body starts with a dotted piece that could join the nonce. */
  ghost predicate CanJoinNonce(uuid: string, rest: string, body: Bytes) {
    Utf8(rest) + [DOT] <= body && IsTrimmed(uuid + "." + rest)
  }

  lemma AbsorbingHasDot(n: string, b: Bytes, rest: string, longer: string, c: Bytes)
    requires Absorbs(n, b, rest, longer, c)
    ensures '.' in longer
  {
    assert longer[|n|] == '.';
  }

  lemma ReadingsOfMinted(cfg: Config, policy: Policy, text: string, uuid: string, body: Bytes,
                         r: Reading, b: Bytes)
    requires '.' !in text && IsUuidText(uuid)
    requires IsReading(cfg, policy, text, CanonicalString(text, uuid, body), r, b)
    ensures || r == Reading(Canonical, uuid)
            || (r == Reading(LegacyNoNonce, "") && LegacyNoNonce in cfg.accepted)
            || (!policy.refusesDotted && exists rest :: CanJoinNonce(uuid, rest, body))
  {
    if r.scheme == Canonical {
      UuidIsPlain(uuid);
      CanonicalCoincide(text, uuid, body, text, r.nonce, b);
      if rest :| Absorbs(r.nonce, b, rest, uuid, body) {
        AbsorbingHasDot(r.nonce, b, rest, uuid, body);
      }
      if rest :| Absorbs(uuid, body, rest, r.nonce, b) {
        AbsorbingHasDot(uuid, body, rest, r.nonce, b);
        assert Utf8(rest) + [DOT] <= body;
        assert CanJoinNonce(uuid, rest, body);
      }
    }
  }

  lemma MintedReadsOneWay(cfg: Config, policy: Policy, text: string, uuid: string, body: Bytes)
    requires '.' !in text && IsUuidText(uuid) && LegacyNoNonce !in cfg.accepted
    requires policy.refusesDotted || !exists rest :: CanJoinNonce(uuid, rest, body)
    ensures ReadsOneWay(cfg, policy, text, CanonicalString(text, uuid, body))
  {
    var message := CanonicalString(text, uuid, body);
    forall r, b | IsReading(cfg, policy, text, message, r, b) ensures r == Reading(Canonical, uuid) {
      ReadingsOfMinted(cfg, policy, text, uuid, body, r, b);
    }
  }

  lemma MintedReadings(cfg: Config, policy: Policy, text: string, uuid: string, body: Bytes)
    requires Canonical in cfg.accepted && IsUuidText(uuid)
    ensures IsReading(cfg, policy, text, CanonicalString(text, uuid, body), Reading(Canonical, uuid), body)
    ensures LegacyNoNonce in cfg.accepted ==>
              IsReading(cfg, policy, text, CanonicalString(text, uuid, body), Reading(LegacyNoNonce, ""),
                        Utf8(uuid) + [DOT] + body)
  {
    UuidIsPlain(uuid);
    CanonicalRegroups(text, uuid, body);
  }

  lemma JoinedIsReading(cfg: Config, policy: Policy, text: string, uuid: string, body: Bytes, rest: string)
    requires Canonical in cfg.accepted && CanJoinNonce(uuid, rest, body) && !policy.refusesDotted
    ensures IsReading(cfg, policy, text, CanonicalString(text, uuid, body),
                      Reading(Canonical, uuid + "." + rest), body[|Utf8(rest)| + 1..])
  {
    var tail := body[|Utf8(rest)| + 1..];
    assert body == Utf8(rest) + [DOT] + tail;
    AbsorbedBytesEqual(uuid, body, rest, uuid + "." + rest, tail);
    CanonicalRegroups(text, uuid, body);
    CanonicalRegroups(text, uuid + "." + rest, tail);
  }

  /**
   Which of `sign`'s own deliveries a consumer takes at most once over all runs: exactly those that
   cannot come back as legacy, because legacy is not accepted, nor under a longer nonce, because
   dotted nonces are refused or the body has no dotted piece in front that could join the UUID.
   */
  lemma MintedOnceExact(mac: MacFn, cfg: Config, policy: Policy, body: Bytes, mint: i64, uuid: string)
    requires Canonical in cfg.accepted
    requires policy.retention >= cfg.freshnessSecs && 0 <= mint && IsUuidText(uuid)
    ensures AlwaysTakenOnce(mac, cfg, policy, CanonicalString(PrintI64(mint), uuid, body)) <==>
            (0 <= cfg.freshnessSecs ==>
               && LegacyNoNonce !in cfg.accepted
               && (policy.refusesDotted || !exists rest :: CanJoinNonce(uuid, rest, body)))
    ensures DOT !in body ==> !exists rest :: CanJoinNonce(uuid, rest, body)
  {
    var text := PrintI64(mint);
    var message := CanonicalString(text, uuid, body);
    ParsePrintI64(mint);
    ParsedTextIsPlain(text);
    CanonicalRegroups(text, uuid, body);
    TakenOnceExact(mac, cfg, policy, text, mint, message);
    MintedReadings(cfg, policy, text, uuid, body);
    forall rest | CanJoinNonce(uuid, rest, body)
      ensures DOT in body
      ensures !policy.refusesDotted ==> !ReadsOneWay(cfg, policy, text, message)
    {
      assert body[|Utf8(rest)|] == DOT;
      if !policy.refusesDotted {
        JoinedIsReading(cfg, policy, text, uuid, body, rest);
        assert |uuid + "." + rest| > |uuid|;
      }
    }
    if LegacyNoNonce !in cfg.accepted && (policy.refusesDotted || !exists rest :: CanJoinNonce(uuid, rest, body)) {
      MintedReadsOneWay(cfg, policy, text, uuid, body);
    }
  }

  /**
   The repeat under a longer nonce, concretely: `sign`'s delivery over "b.c", then the same
   signature and timestamp with the nonce extended by ".b" over "c". Both are taken, however long
   records are kept.
   */
  lemma DottedBodyRepeats(mac: MacFn, cfg: Config, policy: Policy, mint: i64, uuid: string)
    requires Canonical in cfg.accepted && !policy.refusesDotted && 0 <= cfg.freshnessSecs
    requires 0 <= mint && IsUuidText(uuid)
    ensures var s := SignedAt(mac, cfg.secret, Utf8("b.c"), mint, uuid);
            var log := Run(mac, cfg, policy, mint,
              [Deliver(Presented(Some(s.signature), Some(s.timestamp), Some(uuid), Utf8("b.c"))),
               Deliver(Presented(Some(s.signature), Some(s.timestamp), Some(uuid + ".b"), Utf8("c")))]).log;
            && log == [Taken(Canonical, PrintI64(mint), uuid, Utf8("b.c"), mint),
                       Taken(Canonical, PrintI64(mint), uuid + ".b", Utf8("c"), mint)]
            && SignedBytes(log[0]) == SignedBytes(log[1])
  {
    var text, n2 := PrintI64(mint), uuid + ".b";
    ParsePrintI64(mint);
    UuidIsPlain(uuid);
    assert n2 == uuid + "." + "b" && "b" + "." + "c" == "b.c";
    assert n2[0] == uuid[0] && n2[|n2| - 1] == 'b';
    AbsorptionIsAmbiguous(text, uuid, "b", "c");
    ReadingsAreBothTaken(mac, cfg, policy, text, mint, CanonicalString(text, uuid, Utf8("b.c")),
                         Reading(Canonical, uuid), Utf8("b.c"), Reading(Canonical, n2), Utf8("c"));
  }

  /**
   The repeat as legacy: where legacy is accepted, `sign`'s delivery over any body, then the same
   signature and timestamp without the nonce over nonce-dot-body. Both are taken, also when dotted
   nonces are refused and whatever body field legacy deliveries are known by.
   */
  lemma TolerantRepeats(mac: MacFn, cfg: Config, policy: Policy, body: Bytes, mint: i64, uuid: string)
    requires Canonical in cfg.accepted && LegacyNoNonce in cfg.accepted && 0 <= cfg.freshnessSecs
    requires 0 <= mint && IsUuidText(uuid)
    ensures var s := SignedAt(mac, cfg.secret, body, mint, uuid);
            var respelled := Utf8(uuid) + [DOT] + body;
            var log := Run(mac, cfg, policy, mint,
              [Deliver(Presented(Some(s.signature), Some(s.timestamp), Some(uuid), body)),
               Deliver(Presented(Some(s.signature), Some(s.timestamp), None, respelled))]).log;
            && log == [Taken(Canonical, PrintI64(mint), uuid, body, mint),
                       Taken(LegacyNoNonce, PrintI64(mint), "", respelled, mint)]
            && SignedBytes(log[0]) == SignedBytes(log[1])
  {
    var text := PrintI64(mint);
    ParsePrintI64(mint);
    MintedReadings(cfg, policy, text, uuid, body);
    ReadingsAreBothTaken(mac, cfg, policy, text, mint, CanonicalString(text, uuid, body),
                         Reading(Canonical, uuid), body,
                         Reading(LegacyNoNonce, ""), Utf8(uuid) + [DOT] + body);
  }

  // ---- What at-most-once delivery takes -----------------------------------------------------------

  /** No two deliveries taken with this timestamp, of whatever schemes, share their signed bytes. */
  ghost predicate AtMostOnceAt(s: Consumer, ts: i64) {
    forall i, j :: 0 <= i < j < |s.log| && s.log[i].timestamp == ts ==>
      SignedBytes(s.log[i]) != SignedBytes(s.log[j])
  }

  ghost predicate AlwaysAtMostOnceAt(mac: MacFn, cfg: Config, policy: Policy, ts: i64) {
    forall start: i64, events: seq<Event> :: 0 <= start ==>
      AtMostOnceAt(Run(mac, cfg, policy, start, events), ts)
  }

  /** For every timestamp that is not negative, as `sign` mints them. */
  ghost predicate AlwaysAtMostOnce(mac: MacFn, cfg: Config, policy: Policy) {
    forall ts: i64 :: 0 <= ts ==> AlwaysAtMostOnceAt(mac, cfg, policy, ts)
  }

  /** One message has one shape: dotted nonces are refused and legacy is not accepted. */
  predicate OneShape(cfg: Config, policy: Policy) {
    policy.refusesDotted && LegacyNoNonce !in cfg.accepted
  }

  /** Records kept for the window and one shape a message: no repeat in any run. */
  lemma CarefulConsumerIsSafe(mac: MacFn, cfg: Config, policy: Policy, ts: i64,
                              start: i64, events: seq<Event>)
    requires 0 <= start && 0 <= ts && policy.retention >= cfg.freshnessSecs
    requires OneShape(cfg, policy) || cfg.freshnessSecs < 0
    ensures AtMostOnceAt(Run(mac, cfg, policy, start, events), ts)
  {
    var log := Run(mac, cfg, policy, start, events).log;
    forall i, j | 0 <= i < j < |log| && log[i].timestamp == ts
      ensures SignedBytes(log[i]) != SignedBytes(log[j])
    {
      var a, b := log[i], log[j];
      SameBytesOtherKey(mac, cfg, policy, start, events, i, j);
      if SignedBytes(a) == SignedBytes(b) {
        OneShapeOneKey(cfg, policy, a, b);
      }
    }
  }

  lemma OneShapeOneKey(cfg: Config, policy: Policy, a: Taken, b: Taken)
    requires OneShape(cfg, policy) && WellTaken(cfg, policy, a) && WellTaken(cfg, policy, b)
    requires '.' !in a.text && '.' !in b.text && SignedBytes(a) == SignedBytes(b)
    ensures KeyOfTaken(policy, a) == KeyOfTaken(policy, b)
  {
    assert a.scheme == Canonical && b.scheme == Canonical;
    CanonicalInjective(a.text, a.nonce, a.body, b.text, b.nonce, b.body);
  }

  /** Without one shape a message, some run repeats at every timestamp the clock can reach. */
  lemma TwoShapesRepeat(mac: MacFn, cfg: Config, policy: Policy, ts: i64)
    requires Canonical in cfg.accepted && !OneShape(cfg, policy) && 0 <= cfg.freshnessSecs && 0 <= ts
    ensures !AlwaysAtMostOnceAt(mac, cfg, policy, ts)
  {
    var text := PrintI64(ts);
    ParsePrintI64(ts);
    if !policy.refusesDotted {
      var message := CanonicalString(text, "a", Utf8("b.c"));
      DottedNonceIsAmbiguous(text);
      RepeatIsTakenTwice(mac, cfg, policy, text, ts, message,
                         Reading(Canonical, "a"), Utf8("b.c"), Reading(Canonical, "a.b"), Utf8("c"));
    } else {
      var message := CanonicalString(text, "n", []);
      CanonicalRegroups(text, "n", []);
      RepeatIsTakenTwice(mac, cfg, policy, text, ts, message,
                         Reading(Canonical, "n"), [], Reading(LegacyNoNonce, ""), Utf8("n") + [DOT] + []);
    }
  }

  // ---- Forgetting too early ------------------------------------------------------------------------

  function Sample(ts: i64): Taken {
    Taken(Canonical, PrintI64(ts), "n", [], ts)
  }

  function SampleDelivery(mac: MacFn, cfg: Config, ts: i64): Presented {
    PlainDelivery(mac, cfg.secret, Canonical, PrintI64(ts), "n", [])
  }

  /** The sample is taken whenever it is fresh and its nonce is not on record. */
  lemma SampleIsTaken(mac: MacFn, cfg: Config, policy: Policy, s: Consumer, ts: i64)
    requires Canonical in cfg.accepted && Skew(s.clock, ts) <= cfg.freshnessSecs
    requires Nonce("n") !in s.seen
    ensures Step(mac, cfg, policy, s, Deliver(SampleDelivery(mac, cfg, ts))) ==
            s.(seen := s.seen[Nonce("n") := ts], log := s.log + [Sample(ts)])
  {
    ParsePrintI64(ts);
    ReadingIsTaken(mac, cfg, policy, s, PrintI64(ts), ts, CanonicalString(PrintI64(ts), "n", []),
                   Reading(Canonical, "n"), []);
  }

  lemma TickThenForget(mac: MacFn, cfg: Config, policy: Policy, s: Consumer, ts: i64, later: i64)
    requires s == Consumer(s.clock, map[Nonce("n") := ts], [Sample(ts)])
    requires s.clock <= later && ts + policy.retention < later
    ensures Step(mac, cfg, policy, Step(mac, cfg, policy, s, Tick(later)), Forget(Nonce("n")))
            == Consumer(later, map[], [Sample(ts)])
  {
    var s1 := Step(mac, cfg, policy, s, Tick(later));
    assert s1 == Consumer(later, map[Nonce("n") := ts], [Sample(ts)]);
    assert s1.seen - {Nonce("n")} == map[];
  }

  /** Deliver, wait past the retention, forget, deliver again while it still counts as fresh. */
  lemma ForgettingRun(mac: MacFn, cfg: Config, policy: Policy, ts: i64, first: i64, later: i64)
    returns (events: seq<Event>)
    requires Canonical in cfg.accepted && first <= later && ts + policy.retention < later
    requires Skew(first, ts) <= cfg.freshnessSecs && Skew(later, ts) <= cfg.freshnessSecs
    ensures Run(mac, cfg, policy, first, events).log == [Sample(ts), Sample(ts)]
  {
    var p := SampleDelivery(mac, cfg, ts);
    var s0 := Consumer(first, map[], []);
    assert Run(mac, cfg, policy, first, []) == s0;
    SampleIsTaken(mac, cfg, policy, s0, ts);
    var s1 := Consumer(first, map[Nonce("n") := ts], [Sample(ts)]);
    assert s0.seen[Nonce("n") := ts] == s1.seen && s0.log + [Sample(ts)] == s1.log;
    TickThenForget(mac, cfg, policy, s1, ts, later);
    SampleIsTaken(mac, cfg, policy, Consumer(later, map[], [Sample(ts)]), ts);
    events := [] + [Deliver(p)];
    RunExtends(mac, cfg, policy, first, [], Deliver(p));
    RunExtends(mac, cfg, policy, first, events, Tick(later));
    RunExtends(mac, cfg, policy, first, events + [Tick(later)], Forget(Nonce("n")));
    events := events + [Tick(later)] + [Forget(Nonce("n"))];
    RunExtends(mac, cfg, policy, first, events, Deliver(p));
    events := events + [Deliver(p)];
  }

  /** Forgetting while the delivery still counts as fresh lets it in again. */
  lemma ForgettingRepeats(mac: MacFn, cfg: Config, policy: Policy, ts: i64, first: i64, later: i64)
    requires Canonical in cfg.accepted && 0 <= first <= later && ts + policy.retention < later
    requires Skew(first, ts) <= cfg.freshnessSecs && Skew(later, ts) <= cfg.freshnessSecs
    ensures !AlwaysAtMostOnceAt(mac, cfg, policy, ts)
  {
    var events := ForgettingRun(mac, cfg, policy, ts, first, later);
    var s := Run(mac, cfg, policy, first, events);
    assert SignedBytes(s.log[0]) == SignedBytes(s.log[1]);
    assert !AtMostOnceAt(s, ts);
  }

  // ---- The exact conditions --------------------------------------------------------------------------

  /**
   What at-most-once delivery needs, over all runs, all pairs taken and both schemes: exactly that
   records are kept for the freshness window and, unless the window is negative, that dotted nonces
   are refused and legacy is not accepted.
   */
  lemma AtMostOnceExact(mac: MacFn, cfg: Config, policy: Policy)
    requires Canonical in cfg.accepted
    ensures AlwaysAtMostOnce(mac, cfg, policy) <==>
            policy.retention >= cfg.freshnessSecs && (OneShape(cfg, policy) || cfg.freshnessSecs < 0)
  {
    if policy.retention < cfg.freshnessSecs {
      NonnegativeReadingsFit(0, 0);
      NonnegativeReadingsFit(policy.retention + 1, 0);
      ForgettingRepeats(mac, cfg, policy, 0, 0, policy.retention + 1);
    } else if !OneShape(cfg, policy) && 0 <= cfg.freshnessSecs {
      TwoShapesRepeat(mac, cfg, policy, 0);
    } else {
      forall ts: i64, start: i64, events: seq<Event> | 0 <= ts && 0 <= start
        ensures AtMostOnceAt(Run(mac, cfg, policy, start, events), ts)
      {
        CarefulConsumerIsSafe(mac, cfg, policy, ts, start, events);
      }
    }
  }

  /**
   The timestamps for which no run repeats a delivery, with records kept for the window: exactly
   the nonnegative ones, and those only if a message has one shape or the window is negative. Each
   negative one is 2^63 seconds away from some clock reading, where the wrapped skew lets it pass
   although its record may long be gone. (`sign` never mints one.)
   */
  lemma SafeTimestampsExact(mac: MacFn, cfg: Config, policy: Policy, ts: i64)
    requires Canonical in cfg.accepted && cfg.freshnessSecs <= policy.retention <= MAX_I64
    ensures AlwaysAtMostOnceAt(mac, cfg, policy, ts) <==>
            0 <= ts && (OneShape(cfg, policy) || cfg.freshnessSecs < 0)
  {
    if ts < 0 {
      var far: i64 := ts + MAX_I64 + 1;
      WrappedSkewExact(far, ts);
      ForgettingRepeats(mac, cfg, policy, ts, far, far);
    } else if !OneShape(cfg, policy) && 0 <= cfg.freshnessSecs {
      TwoShapesRepeat(mac, cfg, policy, ts);
    } else {
      forall start: i64, events: seq<Event> | 0 <= start
        ensures AtMostOnceAt(Run(mac, cfg, policy, start, events), ts)
      {
        CarefulConsumerIsSafe(mac, cfg, policy, ts, start, events);
      }
    }
  }
}
