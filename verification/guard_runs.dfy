/**
 Whole runs of the guard under a resolver that may answer differently every time it is asked:
 registrations, attempts and retries (each resolving afresh), and connections. A client, once an
 attempt has passed, is its caller's to keep: it may connect at any later time, also after a later
 attempt was refused, and on any URL. Anything that client could do is a possible step.
 */
module GuardRuns {
  import opened Wrappers
  import opened Addresses
  import opened SortedVec
  import opened OutboundGuard

  datatype Attempt = Attempt(url: Url, answer: Answer, outcome: Result<Destination, GuardError>)

  /** A connection to `ip` by the client of attempt number `attempt`, used on `url`. */
  datatype Connection = Connection(attempt: nat, url: Url, ip: IpAddr)

  datatype State = State(registered: seq<Url>, attempts: seq<Attempt>, connections: seq<Connection>)

  datatype Event =
    | Register(parsed: Option<Url>)
    | Try(attempt: Attempt)
    | Connect(k: nat, url: Url, ip: IpAddr, lookup: seq<SocketAddr>)

  const INITIAL := State([], [], [])

  /** Attempt `k` was made and passed, so there is a client for it. */
  predicate Passed(attempts: seq<Attempt>, k: nat) {
    k < |attempts| && attempts[k].outcome.Success?
  }

  predicate CanConnect(s: State, k: nat, url: Url, ip: IpAddr, lookup: seq<SocketAddr>) {
    Passed(s.attempts, k) && MayContact(HardenedClient(s.attempts[k].outcome.value), url, lookup, ip)
  }

  /** One event; an event that cannot happen changes nothing. */
  ghost function Step(s: State, e: Event): State {
    match e
    case Register(parsed) =>
      if ValidateUrl(parsed).Success? then s.(registered := s.registered + [parsed.value]) else s
    case Try(a) =>
      if ResolvesTo(a.url, a.answer, a.outcome) then s.(attempts := s.attempts + [a]) else s
    case Connect(k, url, ip, lookup) =>
      if CanConnect(s, k, url, ip, lookup)
      then s.(connections := s.connections + [Connection(k, url, ip)]) else s
  }

  ghost function Run(events: seq<Event>): State {
    if events == [] then INITIAL
    else Step(Run(events[..|events| - 1]), events[|events| - 1])
  }

  lemma RunExtends(events: seq<Event>, e: Event)
    ensures Run(events + [e]) == Step(Run(events), e)
  {
    assert (events + [e])[..|events|] == events;
  }

  // ---- What every run keeps ----------------------------------------------------------

  /**
   The connection belongs to an attempt that passed. On that attempt's host it goes to the checked
   literal, or to a member of that very attempt's answer; on any URL that keeps the pin it goes to
   a public address.
   */
  ghost predicate IsGuarded(attempts: seq<Attempt>, c: Connection) {
    && Passed(attempts, c.attempt)
    && var a := attempts[c.attempt];
       && (c.url.host == a.url.host ==>
             if LiteralHostIp(a.url).Some? then c.ip == LiteralHostIp(a.url).value
             else a.answer.Answered? && IsAmong(c.ip, a.answer.addrs))
       && (KeepsThePin(a.outcome.value.host, c.url) ==> IsPublicIp(c.ip))
  }

  /** An attempt that resolves is recorded, with its outcome; the rest of the state stays. */
  lemma ResolvingAttemptIsRecorded(events: seq<Event>, a: Attempt)
    requires ResolvesTo(a.url, a.answer, a.outcome)
    ensures var s := Run(events);
            Run(events + [Try(a)]) == s.(attempts := s.attempts + [a])
  {
    RunExtends(events, Try(a));
  }

  /** A registration is recorded exactly when its text parsed to a sound URL. */
  lemma SoundUrlIsRegistered(events: seq<Event>, parsed: Option<Url>)
    ensures var s := Run(events);
            Run(events + [Register(parsed)]) ==
            if parsed.Some? && IsSoundUrl(parsed.value) then s.(registered := s.registered + [parsed.value])
            else s
  {
    RunExtends(events, Register(parsed));
    ValidateExact(parsed);
    if parsed.Some? && IsSoundUrl(parsed.value) {
      assert ValidateUrl(parsed) == Success(parsed.value);
    }
  }

  ghost predicate Invariant(s: State) {
    && (forall a <- s.attempts :: ResolvesTo(a.url, a.answer, a.outcome))
    && (forall c <- s.connections :: IsGuarded(s.attempts, c))
    && (forall u <- s.registered :: CheckUrl(u).None?)
  }

  lemma ConnectingIsGuarded(s: State, k: nat, url: Url, ip: IpAddr, lookup: seq<SocketAddr>)
    requires Invariant(s) && CanConnect(s, k, url, ip, lookup)
    ensures IsGuarded(s.attempts, Connection(k, url, ip))
  {
    var a := s.attempts[k];
    assert a in s.attempts;
    ClientIsPinned(a.url, a.answer, a.outcome.value, url, lookup, ip);
    DestinationIsChecked(a.url, a.answer, a.outcome);
    PinExact(a.url, a.answer, a.outcome.value, url);
  }

  lemma StepKeepsInvariant(s: State, e: Event)
    requires Invariant(s)
    ensures Invariant(Step(s, e))
    ensures s.attempts <= Step(s, e).attempts
  {
    match e {
      case Register(_) =>
      case Try(a) =>
        var s' := Step(s, e);
        forall c <- s'.connections ensures IsGuarded(s'.attempts, c) {
          assert IsGuarded(s.attempts, c);
        }
      case Connect(k, url, ip, lookup) =>
        if CanConnect(s, k, url, ip, lookup) {
          ConnectingIsGuarded(s, k, url, ip, lookup);
        }
    }
  }

  lemma {:induction false} RunKeepsInvariant(events: seq<Event>)
    ensures Invariant(Run(events))
  {
    if events != [] {
      RunKeepsInvariant(events[..|events| - 1]);
      StepKeepsInvariant(Run(events[..|events| - 1]), events[|events| - 1]);
    }
  }

  /** Attempts are never rewritten. */
  lemma {:induction false} AttemptsOnlyGrow(before: seq<Event>, after: seq<Event>)
    ensures Run(before).attempts <= Run(before + after).attempts
  {
    if after == [] {
      assert before + after == before;
    } else {
      var init, last := after[..|after| - 1], after[|after| - 1];
      AttemptsOnlyGrow(before, init);
      assert before + after == (before + init) + [last];
      RunExtends(before + init, last);
    }
  }

  // ---- Safety ------------------------------------------------------------------------------

  /**
   In every run, every connection belongs to an attempt that passed; on that attempt's host it goes
   to what that very attempt checked, whatever later attempts were answered; and it is public on
   every URL that keeps the pin.
   */
  lemma EveryConnectionIsGuarded(events: seq<Event>, i: nat)
    requires i < |Run(events).connections|
    ensures var s := Run(events); IsGuarded(s.attempts, s.connections[i])
  {
    RunKeepsInvariant(events);
    assert Run(events).connections[i] in Run(events).connections;
  }

  /**
   In every run, every connection belongs to an attempt on an https URL without userinfo, and each
   registered URL is sound.
   */
  lemma EveryAttemptUrlIsSound(events: seq<Event>, i: nat)
    requires i < |Run(events).connections|
    ensures var s := Run(events);
            Passed(s.attempts, s.connections[i].attempt)
            && IsSoundUrl(s.attempts[s.connections[i].attempt].url)
    ensures forall u <- Run(events).registered :: IsSoundUrl(u)
  {
    EveryConnectionIsGuarded(events, i);
    RunKeepsInvariant(events);
    var s := Run(events);
    var a := s.attempts[s.connections[i].attempt];
    assert a in s.attempts;
    ResolveExact(a.url, a.answer, a.outcome);
    forall u <- s.registered ensures IsSoundUrl(u) {
      ValidateExact(Some(u));
      assert ValidateUrl(Some(u)) == Success(u);
    }
  }

  /** However a run goes on, nothing ever connects on the strength of a refused attempt. */
  lemma RefusedAttemptNeverConnects(before: seq<Event>, after: seq<Event>, k: nat)
    requires k < |Run(before).attempts| && Run(before).attempts[k].outcome.Failure?
    ensures forall c <- Run(before + after).connections :: c.attempt != k
  {
    AttemptsOnlyGrow(before, after);
    RunKeepsInvariant(before + after);
    var s := Run(before + after);
    forall c <- s.connections ensures c.attempt != k {
      assert IsGuarded(s.attempts, c);
    }
  }

  lemma AttemptResolves(events: seq<Event>, k: nat)
    requires k < |Run(events).attempts|
    ensures var a := Run(events).attempts[k]; ResolvesTo(a.url, a.answer, a.outcome)
  {
    RunKeepsInvariant(events);
    assert Run(events).attempts[k] in Run(events).attempts;
  }

  /**
   Exactly the URLs that keep the pin are safe to use a passing attempt's client on: at any point of
   any run, its next connection is public whatever its resolver says, if and only if the URL has no
   host, the attempt's own host, or a public literal.
   */
  lemma SafeUseExact(events: seq<Event>, k: nat, url: Url)
    requires Passed(Run(events).attempts, k)
    ensures KeepsThePin(Run(events).attempts[k].outcome.value.host, url) <==>
            forall ip, lookup {:trigger Run(events + [Connect(k, url, ip, lookup)])} ::
              Run(events + [Connect(k, url, ip, lookup)]) == Run(events) || IsPublicIp(ip)
  {
    AttemptResolves(events, k);
    var s := Run(events);
    var a := s.attempts[k];
    PinExact(a.url, a.answer, a.outcome.value, url);
    var client := HardenedClient(a.outcome.value);
    forall ip, lookup
      ensures Run(events + [Connect(k, url, ip, lookup)]) == s <==> !MayContact(client, url, lookup, ip)
    {
      RunExtends(events, Connect(k, url, ip, lookup));
      assert s.connections + [Connection(k, url, ip)] != s.connections;
    }
    if !KeepsThePin(a.outcome.value.host, url) {
      var lookup, ip :| MayContact(client, url, lookup, ip) && !IsPublicIp(ip);
      assert Run(events + [Connect(k, url, ip, lookup)]) != s;
    }
  }

  /**
   The guarantee is not bought by never connecting: at any later point of a run, also after refused
   attempts, the client of a passing attempt can reach each address that was checked for it.
   */
  lemma CheckedAddressesAreReachable(events: seq<Event>, k: nat, ip: IpAddr, lookup: seq<SocketAddr>)
    requires Passed(Run(events).attempts, k)
    requires var a := Run(events).attempts[k];
             if LiteralHostIp(a.url).Some? then ip == LiteralHostIp(a.url).value
             else a.answer.Answered? && IsAmong(ip, a.answer.addrs)
    ensures var s := Run(events);
            var url := s.attempts[k].url;
            Run(events + [Connect(k, url, ip, lookup)]) ==
            s.(connections := s.connections + [Connection(k, url, ip)])
  {
    AttemptResolves(events, k);
    var a := Run(events).attempts[k];
    RunExtends(events, Connect(k, a.url, ip, lookup));
    DestinationIsChecked(a.url, a.answer, a.outcome);
    ClientIsPinned(a.url, a.answer, a.outcome.value, a.url, lookup, ip);
    assert a.url.host.Some?;
    assert MayContact(HardenedClient(a.outcome.value), a.url, lookup, ip);
  }
}
