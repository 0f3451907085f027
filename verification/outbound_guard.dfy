/**
 The outbound-fetch guard: URL policy, and resolve-check-pin. Parsed URLs come from the `url`
 crate; what the resolver answers is an input, and may be anything.
 */
module OutboundGuard {
  import opened Wrappers
  import opened Addresses
  import opened SortedVec

  // ---- Data ------------------------------------------------------------------------

  type u16 = n: int | 0 <= n < 0x1_0000

  type u32 = n: int | 0 <= n < 0x1_0000_0000

  datatype SocketAddr =
    | SockV4(v4: Ipv4, port: u16)
    | SockV6(v6: Ipv6, port: u16, flowinfo: u32, scopeId: u32)

  function IpOf(a: SocketAddr): IpAddr {
    match a
    case SockV4(v4, _) => V4(v4)
    case SockV6(v6, _, _, _) => V6(v6)
  }

  /** The standard order: IPv4 first, then address (as a number), then the other fields. */
  predicate SocketLeq(a: SocketAddr, b: SocketAddr) {
    match (a, b)
    case (SockV4(_, _), SockV6(_, _, _, _)) => true
    case (SockV6(_, _, _, _), SockV4(_, _)) => false
    case (SockV4(i, p), SockV4(j, q)) =>
      i as int < j as int || (i as int == j as int && p <= q)
    case (SockV6(i, p, f, s), SockV6(j, q, g, t)) =>
      || i as int < j as int
      || (i as int == j as int && (p < q || (p == q && (f < g || (f == g && s <= t)))))
  }

  lemma AddressesAreNumbers(i: Ipv4, j: Ipv4, k: Ipv6, l: Ipv6)
    ensures i as int == j as int ==> i == j
    ensures k as int == l as int ==> k == l
  {
    assert i as int as bv32 == i && j as int as bv32 == j;
    assert k as int as bv128 == k && l as int as bv128 == l;
  }

  lemma SocketLeqTransitive(a: SocketAddr, b: SocketAddr, c: SocketAddr)
    requires SocketLeq(a, b) && SocketLeq(b, c)
    ensures SocketLeq(a, c)
  {
  }

  lemma SocketLeqAntisymmetric(a: SocketAddr, b: SocketAddr)
    ensures SocketLeq(a, b) || SocketLeq(b, a)
    ensures SocketLeq(a, b) && SocketLeq(b, a) ==> a == b
  {
    if a.SockV4? && b.SockV4? {
      AddressesAreNumbers(a.v4, b.v4, 0, 0);
    } else if a.SockV6? && b.SockV6? {
      AddressesAreNumbers(0, 0, a.v6, b.v6);
    }
  }

  lemma SocketOrderIsTotal()
    ensures IsTotalOrder(SocketLeq)
  {
    forall a, b, c | SocketLeq(a, b) && SocketLeq(b, c) ensures SocketLeq(a, c) {
      SocketLeqTransitive(a, b, c);
    }
    forall a, b ensures (SocketLeq(a, b) || SocketLeq(b, a))
                        && (SocketLeq(a, b) && SocketLeq(b, a) ==> a == b) {
      SocketLeqAntisymmetric(a, b);
    }
  }

  /** IPv4 before IPv6, smaller addresses before larger ones, smaller ports after equal addresses. */
  lemma SocketOrderExact(i: Ipv4, j: Ipv4, k: Ipv6, l: Ipv6, p: u16, q: u16)
    ensures SocketLeq(SockV4(i, p), SockV6(k, q, 0, 0)) && !SocketLeq(SockV6(k, q, 0, 0), SockV4(i, p))
    ensures i as int < j as int ==> SocketLeq(SockV4(i, p), SockV4(j, q)) && !SocketLeq(SockV4(j, q), SockV4(i, p))
    ensures k as int < l as int ==>
              SocketLeq(SockV6(k, p, 0, 0), SockV6(l, q, 0, 0)) && !SocketLeq(SockV6(l, q, 0, 0), SockV6(k, p, 0, 0))
    ensures SocketLeq(SockV4(i, p), SockV4(i, q)) <==> p <= q
    ensures SocketLeq(SockV6(k, p, 0, 0), SockV6(k, q, 0, 0)) <==> p <= q
  {
  }

  datatype Host = Domain(name: string) | HostV4(v4: Ipv4) | HostV6(v6: Ipv6)

  datatype Url = Url(scheme: string, host: Option<Host>, username: string,
                     password: Option<string>, port: Option<u16>)

  datatype GuardError =
    | InvalidUrl | NotHttps | NoHost | HasUserinfo | NoPort | NonPublic | DnsFailed | NoAddresses

  datatype Answer = Answered(addrs: seq<SocketAddr>) | LookupFailed

  datatype Destination = Destination(host: Host, addrs: seq<SocketAddr>)

  // ---- URL policy --------------------------------------------------------------------

  /** `Url::port_or_known_default`. */
  function PortOrKnownDefault(url: Url): Option<u16> {
    if url.port.Some? then url.port
    else if url.scheme in {"http", "ws"} then Some(80)
    else if url.scheme in {"https", "wss"} then Some(443)
    else if url.scheme == "ftp" then Some(21)
    else None
  }

  function LiteralHostIp(url: Url): Option<IpAddr> {
    match url.host
    case Some(HostV4(v4)) => Some(V4(v4))
    case Some(HostV6(v6)) => Some(V6(v6))
    case _ => None
  }

  /** `check_url`; `None` is a pass. */
  function CheckUrl(url: Url): Option<GuardError> {
    if url.scheme != "https" then Some(NotHttps)
    else if url.host.None? then Some(NoHost)
    else if url.username != "" || url.password.Some? then Some(HasUserinfo)
    else if PortOrKnownDefault(url).None? then Some(NoPort)
    else if LiteralHostIp(url).Some? && !IsPublicIp(LiteralHostIp(url).value) then Some(NonPublic)
    else None
  }

  /** `validate_url`, given what the URL parser made of the text. */
  function ValidateUrl(parsed: Option<Url>): Result<Url, GuardError> {
    if parsed.None? then Failure(InvalidUrl)
    else if CheckUrl(parsed.value).Some? then Failure(CheckUrl(parsed.value).value)
    else Success(parsed.value)
  }

  // ---- Resolving and pinning ----------------------------------------------------------------

  ghost predicate AllPublic(addrs: seq<SocketAddr>) {
    forall a <- addrs :: IsPublicIp(IpOf(a))
  }

  /** `pinned` is the answer in canonical form. */
  ghost predicate IsCanonicalForm(pinned: seq<SocketAddr>, answer: seq<SocketAddr>) {
    IsStrictlySorted(SocketLeq, pinned) && SameElements(pinned, answer)
  }

  /** What resolving a URL against an answer may yield: for every outcome, exactly when. */
  ghost predicate ResolvesTo(url: Url, answer: Answer, r: Result<Destination, GuardError>) {
    if CheckUrl(url).Some? then r == Failure(CheckUrl(url).value)
    else if LiteralHostIp(url).Some? then r == Success(Destination(url.host.value, []))
    else if answer.LookupFailed? then r == Failure(DnsFailed)
    else if answer.addrs == [] then r == Failure(NoAddresses)
    else if !AllPublic(answer.addrs) then r == Failure(NonPublic)
    else r.Success? && r.value.host == url.host.value && IsCanonicalForm(r.value.addrs, answer.addrs)
  }

  /** `resolve_pinned`. */
  method ResolvePinned(url: Url, answer: Answer) returns (r: Result<Destination, GuardError>)
    ensures ResolvesTo(url, answer, r)
  {
    var refused := CheckUrl(url);
    if refused.Some? { return Failure(refused.value); }
    var host;
    match url.host {
      case Some(Domain(name)) => host := Domain(name);
      case Some(HostV4(v4)) => return Success(Destination(HostV4(v4), []));
      case Some(HostV6(v6)) => return Success(Destination(HostV6(v6), []));
      case None => return Failure(NoHost);
    }
    var port := PortOrKnownDefault(url);
    if port.None? { return Failure(NoPort); }
    if answer.LookupFailed? { return Failure(DnsFailed); }
    var addrs := Canonicalize(answer.addrs);
    if addrs == [] { return Failure(NoAddresses); }
    for i := 0 to |addrs|
      invariant forall k :: 0 <= k < i ==> IsPublicIp(IpOf(addrs[k]))
    {
      if !IsPublicIp(IpOf(addrs[i])) {
        assert addrs[i] in answer.addrs;
        return Failure(NonPublic);
      }
    }
    return Success(Destination(host, addrs));
  }

  /** The sort and the dedup of `resolve_pinned`, in place. */
  method Canonicalize(answer: seq<SocketAddr>) returns (addrs: seq<SocketAddr>)
    ensures IsCanonicalForm(addrs, answer)
    ensures addrs == [] <==> answer == []
  {
    SocketOrderIsTotal();
    var vec := new Vec(answer);
    vec.Sort(SocketLeq);
    ghost var sorted := vec.Contents();
    assert |multiset(sorted)| == |multiset(answer)|;
    assert forall x :: x in sorted <==> x in multiset(sorted);
    assert forall x :: x in answer <==> x in multiset(answer);
    vec.DropRepeats();
    DedupOfSorted(SocketLeq, sorted);
    DedupKeepsElements(sorted);
    addrs := vec.buf[..vec.len];
  }

  // ---- What the policy accepts ---------------------------------------------------------------

  ghost predicate IsRoutableHost(host: Host) {
    match host
    case Domain(_) => true
    case HostV4(v4) => IsRoutableV4(v4)
    case HostV6(v6) => IsRoutableV6(v6)
  }

  predicate HasUserinfoIn(url: Url) {
    url.username != "" || url.password.Some?
  }

  /** https to a host, without userinfo, and a literal host is routable. The port may be anything. */
  ghost predicate IsSoundUrl(url: Url) {
    && url.scheme == "https" && url.host.Some? && !HasUserinfoIn(url)
    && IsRoutableHost(url.host.value)
  }

  ghost predicate IsRoutableSocket(a: SocketAddr) {
    match a
    case SockV4(v4, _) => IsRoutableV4(v4)
    case SockV6(v6, _, _, _) => IsRoutableV6(v6)
  }

  lemma LiteralIsRoutable(url: Url)
    ensures LiteralHostIp(url).Some? <==> url.host.Some? && !url.host.value.Domain?
    ensures LiteralHostIp(url).Some? ==>
              (IsPublicIp(LiteralHostIp(url).value) <==> IsRoutableHost(url.host.value))
  {
    if url.host.Some? {
      match url.host.value {
        case Domain(_) =>
        case HostV4(v4) => PublicIpExact(v4, 0);
        case HostV6(v6) => PublicIpExact(0, v6);
      }
    }
  }

  lemma SocketIsRoutable(a: SocketAddr)
    ensures IsPublicIp(IpOf(a)) <==> IsRoutableSocket(a)
  {
    match a {
      case SockV4(v4, _) => PublicIpExact(v4, 0);
      case SockV6(v6, _, _, _) => PublicIpExact(0, v6);
    }
  }

  /** Each refusal of a URL, in the order of the checks; a missing port never is one. */
  ghost predicate RefusedAs(url: Url, e: GuardError) {
    match e
    case NotHttps => url.scheme != "https"
    case NoHost => url.scheme == "https" && url.host.None?
    case HasUserinfo => url.scheme == "https" && url.host.Some? && HasUserinfoIn(url)
    case NonPublic =>
      && url.scheme == "https" && url.host.Some? && !HasUserinfoIn(url)
      && !IsRoutableHost(url.host.value)
    case _ => false
  }

  /** Validation passes exactly the sound URLs, unchanged, and gives each refusal exactly. */
  lemma ValidateExact(parsed: Option<Url>)
    ensures forall u :: ValidateUrl(parsed) == Success(u) <==> parsed == Some(u) && IsSoundUrl(u)
    ensures forall e :: ValidateUrl(parsed) == Failure(e) <==>
              if parsed.None? then e == InvalidUrl else RefusedAs(parsed.value, e)
  {
    if parsed.Some? {
      LiteralIsRoutable(parsed.value);
    }
  }

  /**
   Resolving succeeds exactly on a sound URL with a literal host, or with a domain whose answer is
   nonempty and routable throughout; it then pins nothing, or the answer in canonical form. Each
   refusal is given exactly, the URL's own first.
   */
  lemma ResolveExact(url: Url, answer: Answer, r: Result<Destination, GuardError>)
    requires ResolvesTo(url, answer, r)
    ensures r.Success? <==>
      && IsSoundUrl(url)
      && (url.host.value.Domain? ==>
            answer.Answered? && answer.addrs != [] && forall a <- answer.addrs :: IsRoutableSocket(a))
    ensures r.Success? ==> r.value.host == url.host.value
    ensures r.Success? ==> if url.host.value.Domain? then IsCanonicalForm(r.value.addrs, answer.addrs)
                           else r.value.addrs == []
    ensures forall e :: r == Failure(e) <==>
      || RefusedAs(url, e)
      || (&& IsSoundUrl(url) && url.host.value.Domain?
          && match answer
             case LookupFailed => e == DnsFailed
             case Answered(addrs) =>
               if addrs == [] then e == NoAddresses
               else e == NonPublic && exists a <- addrs :: !IsRoutableSocket(a))
  {
    LiteralIsRoutable(url);
    forall a ensures IsPublicIp(IpOf(a)) <==> IsRoutableSocket(a) {
      SocketIsRoutable(a);
    }
  }

  /**
   The outcome is determined by the URL and the set of addresses answered: reordering the answer
   or repeating addresses in it changes nothing.
   */
  lemma OutcomeDependsOnTheSet(url: Url, a: Answer, b: Answer,
                               r: Result<Destination, GuardError>, q: Result<Destination, GuardError>)
    requires ResolvesTo(url, a, r) && ResolvesTo(url, b, q)
    requires a.LookupFailed? <==> b.LookupFailed?
    requires a.Answered? && b.Answered? ==> SameElements(a.addrs, b.addrs)
    ensures r == q
  {
    if CheckUrl(url).None? && LiteralHostIp(url).None? && a.Answered? {
      assert a.addrs == [] <==> b.addrs == [] by {
        if a.addrs != [] { NonemptyTogether(b.addrs, a.addrs); }
        if b.addrs != [] { NonemptyTogether(a.addrs, b.addrs); }
      }
      if a.addrs != [] && AllPublic(a.addrs) {
        SocketOrderIsTotal();
        StrictlySortedUnique(SocketLeq, r.value.addrs, q.value.addrs);
      }
    }
  }

  /** A destination's addresses: none for a literal host, otherwise nonempty and all public. */
  lemma DestinationIsChecked(url: Url, answer: Answer, r: Result<Destination, GuardError>)
    requires ResolvesTo(url, answer, r) && r.Success?
    ensures url.host == Some(r.value.host)
    ensures r.value.addrs == [] <==> LiteralHostIp(url).Some?
    ensures AllPublic(r.value.addrs)
    ensures LiteralHostIp(url).Some? ==> IsPublicIp(LiteralHostIp(url).value)
  {
    if LiteralHostIp(url).None? {
      NonemptyTogether(r.value.addrs, answer.addrs);
    }
  }

  // ---- The client ------------------------------------------------------------------------------

  /** What the guard sets on a client builder. */
  datatype ClientBuilder = ClientBuilder(
    followsRedirects: bool, usesProxy: bool, pins: map<Host, seq<SocketAddr>>)

  const DEFAULT_BUILDER := ClientBuilder(true, true, map[])

  /**
   The addresses a client may connect to for `url`, when its own resolver would answer `lookup`:
   a literal host is contacted as it stands, a pinned one at its pins, any other is looked up,
   and with redirects or a proxy the connection may go anywhere.
   */
  predicate MayContact(client: ClientBuilder, url: Url, lookup: seq<SocketAddr>, ip: IpAddr) {
    || client.followsRedirects || client.usesProxy
    || match url.host
       case None => false
       case Some(HostV4(v4)) => ip == V4(v4)
       case Some(HostV6(v6)) => ip == V6(v6)
       case Some(Domain(_)) =>
         var at := if url.host.value in client.pins then client.pins[url.host.value] else lookup;
         IsAmong(ip, at)
  }

  predicate IsAmong(ip: IpAddr, addrs: seq<SocketAddr>) {
    exists i :: 0 <= i < |addrs| && IpOf(addrs[i]) == ip
  }

  /** No redirects, no proxy, and the host pinned whenever there is something to pin it to. */
  function HardenedClient(d: Destination): ClientBuilder {
    ClientBuilder(false, false, if d.addrs == [] then map[] else map[d.host := d.addrs])
  }

  /** `client_builder`. */
  method ClientFor(d: Destination) returns (builder: ClientBuilder)
    ensures builder == HardenedClient(d)
  {
    builder := DEFAULT_BUILDER.(followsRedirects := false);
    builder := builder.(usesProxy := false);
    if d.addrs != [] {
      builder := builder.(pins := builder.pins[d.host := d.addrs]);
    }
  }

  lemma SameElementsSameIps(s: seq<SocketAddr>, t: seq<SocketAddr>, ip: IpAddr)
    requires SameElements(s, t)
    ensures IsAmong(ip, s) <==> IsAmong(ip, t)
  {
    if i :| 0 <= i < |s| && IpOf(s[i]) == ip {
      assert s[i] in t;
    }
    if i :| 0 <= i < |t| && IpOf(t[i]) == ip {
      assert t[i] in s;
    }
  }

  /**
   Where a client built for a destination may connect, for every URL it is used on: a literal host
   as it stands; the host it was built for, at exactly the addresses answered when that host was
   resolved, whatever its own resolver says; and any other domain wherever its own resolver says.
   */
  lemma ClientIsPinned(url: Url, answer: Answer, d: Destination, used: Url, lookup: seq<SocketAddr>,
                       ip: IpAddr)
    requires ResolvesTo(url, answer, Success(d))
    ensures MayContact(HardenedClient(d), used, lookup, ip) <==>
            && used.host.Some?
            && if LiteralHostIp(used).Some? then ip == LiteralHostIp(used).value
               else IsAmong(ip, if used.host == url.host then answer.addrs else lookup)
    ensures used.host == url.host && MayContact(HardenedClient(d), used, lookup, ip) ==> IsPublicIp(ip)
  {
    DestinationIsChecked(url, answer, Success(d));
    if LiteralHostIp(url).None? {
      assert HardenedClient(d).pins == map[url.host.value := d.addrs];
      SameElementsSameIps(d.addrs, answer.addrs, ip);
    }
  }

  /** The URLs on which a client built for `host` stays with public addresses. */
  predicate KeepsThePin(host: Host, used: Url) {
    || used.host.None?
    || used.host == Some(host)
    || (LiteralHostIp(used).Some? && IsPublicIp(LiteralHostIp(used).value))
  }

  ghost predicate OnlyPublic(client: ClientBuilder, used: Url) {
    forall lookup, ip :: MayContact(client, used, lookup, ip) ==> IsPublicIp(ip)
  }

  const LOOPBACK := SockV4(0x7F00_0001, 443)

  lemma LoopbackIsNotPublic()
    ensures !IsPublicIp(IpOf(LOOPBACK))
  {
    assert OctetsOf(0x7F00_0001).a == 127;
  }

  /**
   The guarantee of a client over all URLs: whatever its own resolver answers, it connects to public
   addresses only, exactly on URLs without a host, with the host it was built for, or with a public
   literal. On any other URL some resolver answer leads it elsewhere.
   */
  lemma PinExact(url: Url, answer: Answer, d: Destination, used: Url)
    requires ResolvesTo(url, answer, Success(d))
    ensures OnlyPublic(HardenedClient(d), used) <==> KeepsThePin(d.host, used)
  {
    DestinationIsChecked(url, answer, Success(d));
    forall lookup, ip
      ensures MayContact(HardenedClient(d), used, lookup, ip) && KeepsThePin(d.host, used) ==> IsPublicIp(ip)
    {
      ClientIsPinned(url, answer, d, used, lookup, ip);
    }
    if !KeepsThePin(d.host, used) {
      var ip := if LiteralHostIp(used).Some? then LiteralHostIp(used).value else IpOf(LOOPBACK);
      LoopbackIsNotPublic();
      ClientIsPinned(url, answer, d, used, [LOOPBACK], ip);
      assert IsAmong(IpOf(LOOPBACK), [LOOPBACK]) by { assert IpOf([LOOPBACK][0]) == IpOf(LOOPBACK); }
      assert MayContact(HardenedClient(d), used, [LOOPBACK], ip);
    }
  }

  /** A passing domain URL says nothing about where it leads: some answers pass, some are refused. */
  lemma RegistrationIsNotEnough(url: Url, good: SocketAddr, bad: SocketAddr)
    requires CheckUrl(url).None? && LiteralHostIp(url).None?
    requires IsPublicIp(IpOf(good)) && !IsPublicIp(IpOf(bad))
    ensures ResolvesTo(url, Answered([good]), Success(Destination(url.host.value, [good])))
    ensures forall rest, r :: bad in rest && ResolvesTo(url, Answered(rest), r) ==> r == Failure(NonPublic)
  {
    assert forall a <- [good] :: a == good;
  }
}
