/**
 Resolving whom a machine acts for: the identity that a request carries, updated in place from
 the grant header and the backend's store. The store is any function; UUID parsing is too.
 */
module ChirpGrants {
  import opened Wrappers
  import opened Text
  import opened ChirpHeaders

  type Uuid = nat

  /** What a store lookup yields: a grant with its owner, no grant, or a failure. */
  datatype Lookup = Found(ownerUid: string) | NotFound | StoreFailed

  /** The lookup of a grant id that names the given subject. */
  type GrantStore = (Uuid, string) -> Lookup

  type UuidParser = string -> Option<Uuid>

  /** Identity as a value. */
  datatype Identity = Identity(uid: string, agentId: string, approvalGrantId: Option<string>)

  datatype Request = Request(store: GrantStore, headers: HeaderMap)

  /** The owner that a request's grant entitles `agent` to act as, if any. */
  function GrantedOwner(parse: UuidParser, r: Request, agent: string): Option<string> {
    var header := NonblankHeader(r.headers, APPROVAL_GRANT_HEADER);
    if header.None? || parse(header.value).None? then None
    else match r.store(parse(header.value).value, agent)
         case Found(owner) => Some(owner)
         case NotFound => None
         case StoreFailed => None
  }

  /** The effective uid after one request: a human stays, a machine follows its grant. */
  function NextUid(uid: string, agent: string, owner: Option<string>): string {
    if uid != agent && owner.Some? then owner.value else uid
  }

  function Applied(parse: UuidParser, r: Request, id: Identity): Identity {
    Identity(NextUid(id.uid, id.agentId, GrantedOwner(parse, r, id.agentId)), id.agentId,
             NonblankHeader(r.headers, APPROVAL_GRANT_HEADER))
  }

  class OnBehalfOf {
    var uid: string
    var agentId: string
    var approvalGrantId: Option<string>

    ghost function Value(): Identity
      reads this
    {
      Identity(uid, agentId, approvalGrantId)
    }

    constructor (uid: string, agentId: string)
      ensures Value() == Identity(uid, agentId, None)
    {
      this.uid := uid;
      this.agentId := agentId;
      approvalGrantId := None;
    }

    /** `apply_on_behalf_of_grant`, which never fails. */
    method ApplyGrant(parse: UuidParser, r: Request)
      modifies this`uid, this`approvalGrantId
      ensures Value() == Applied(parse, r, old(Value()))
    {
      var grantHeader := NonblankHeader(r.headers, APPROVAL_GRANT_HEADER);
      approvalGrantId := grantHeader;
      if uid == agentId { return; }
      if grantHeader.None? { return; }
      var grantId := parse(grantHeader.value);
      if grantId.None? { return; }
      match r.store(grantId.value, agentId) {
        case Found(owner) => uid := owner;
        case NotFound =>
        case StoreFailed =>
      }
    }
  }

  /** The identity after it served one request after another. */
  function AppliedAll(parse: UuidParser, requests: seq<Request>, id: Identity): Identity {
    if requests == [] then id
    else Applied(parse, requests[|requests| - 1], AppliedAll(parse, requests[..|requests| - 1], id))
  }

  // ---- What one request does ---------------------------------------------------------

  /** The request's grant header parses, and the store says that `owner` granted it to `agent`. */
  ghost predicate Grants(parse: UuidParser, r: Request, agent: string, owner: string) {
    exists g, n :: g != "" && CarriesTrimmed(r.headers, "x-approval-grant", g)
                   && parse(g) == Some(n) && r.store(n, agent) == Found(owner)
  }

  lemma GrantedOwnerExact(parse: UuidParser, r: Request, agent: string, owner: string)
    ensures GrantedOwner(parse, r, agent) == Some(owner) <==> Grants(parse, r, agent, owner)
  {
    forall g ensures NonblankHeader(r.headers, APPROVAL_GRANT_HEADER) == Some(g) <==>
                     g != "" && CarriesTrimmed(r.headers, "x-approval-grant", g) {
      NonblankHeaderExact(r.headers, APPROVAL_GRANT_HEADER, g);
    }
  }

  /**
   What a request may make of an identity: the header is copied, the agent stays, and a machine
   whose grant is found becomes its owner; a human, or a machine without one, stays who it is.
   */
  ghost predicate IsNext(parse: UuidParser, r: Request, before: Identity, after: Identity) {
    && after.agentId == before.agentId
    && (forall g :: after.approvalGrantId == Some(g) <==>
                    g != "" && CarriesTrimmed(r.headers, "x-approval-grant", g))
    && (if before.uid != before.agentId && exists owner :: Grants(parse, r, before.agentId, owner)
        then Grants(parse, r, before.agentId, after.uid)
        else after.uid == before.uid)
  }

  /** A request has exactly this effect; in particular every grant found takes effect. */
  lemma AppliedExact(parse: UuidParser, r: Request, before: Identity, after: Identity)
    ensures after == Applied(parse, r, before) <==> IsNext(parse, r, before, after)
  {
    forall owner ensures GrantedOwner(parse, r, before.agentId) == Some(owner) <==>
                         Grants(parse, r, before.agentId, owner) {
      GrantedOwnerExact(parse, r, before.agentId, owner);
    }
    forall g ensures NonblankHeader(r.headers, APPROVAL_GRANT_HEADER) == Some(g) <==>
                     g != "" && CarriesTrimmed(r.headers, "x-approval-grant", g) {
      NonblankHeaderExact(r.headers, APPROVAL_GRANT_HEADER, g);
    }
  }

  /** The same for the last request of any sequence. */
  lemma LastRequestExact(parse: UuidParser, requests: seq<Request>, r: Request, id: Identity, after: Identity)
    ensures after == AppliedAll(parse, requests + [r], id) <==>
            IsNext(parse, r, AppliedAll(parse, requests, id), after)
    ensures forall owner ::
      AppliedAll(parse, requests, id).uid != id.agentId && Grants(parse, r, id.agentId, owner) ==>
        AppliedAll(parse, requests + [r], id).uid == owner
  {
    assert (requests + [r])[..|requests|] == requests;
    AppliedExact(parse, r, AppliedAll(parse, requests, id), after);
    AppliedAllExact(parse, requests, id);
    forall owner ensures GrantedOwner(parse, r, id.agentId) == Some(owner) <==>
                         Grants(parse, r, id.agentId, owner) {
      GrantedOwnerExact(parse, r, id.agentId, owner);
    }
  }

  // ---- Laws ------------------------------------------------------------------------

  /** Applying the same request again changes nothing, even if the owner is the agent itself. */
  lemma ApplyIsIdempotent(parse: UuidParser, r: Request, id: Identity)
    ensures Applied(parse, r, Applied(parse, r, id)) == Applied(parse, r, id)
  {
  }

  /** The last owner granted in a sequence of requests, or else `uid`. */
  function LastOwner(parse: UuidParser, requests: seq<Request>, agent: string, uid: string): string {
    if requests == [] then uid
    else
      var owner := GrantedOwner(parse, requests[|requests| - 1], agent);
      if owner.Some? then owner.value
      else LastOwner(parse, requests[..|requests| - 1], agent, uid)
  }

  /** Some request's grant makes the agent its own owner. */
  ghost predicate GrantsItself(parse: UuidParser, requests: seq<Request>, agent: string) {
    exists i :: 0 <= i < |requests| && GrantedOwner(parse, requests[i], agent) == Some(agent)
  }

  /**
   The identity after any sequence of requests, stores and headers: the agent never changes, the
   grant id is the last request's, and the uid is a human's own, or the agent's for good once some
   grant made the agent its own owner, or else the last owner a store returned for this agent.
   */
  lemma {:induction false} AppliedAllExact(parse: UuidParser, requests: seq<Request>, id: Identity)
    ensures AppliedAll(parse, requests, id) == Identity(
      if id.uid == id.agentId || GrantsItself(parse, requests, id.agentId) then id.agentId
      else LastOwner(parse, requests, id.agentId, id.uid),
      id.agentId,
      if requests == [] then id.approvalGrantId
      else NonblankHeader(requests[|requests| - 1].headers, APPROVAL_GRANT_HEADER))
    ensures id.uid != id.agentId && LastOwner(parse, requests, id.agentId, id.uid) == id.agentId ==>
            GrantsItself(parse, requests, id.agentId)
  {
    if requests != [] {
      var init, last := requests[..|requests| - 1], requests[|requests| - 1];
      AppliedAllExact(parse, init, id);
      assert requests == init + [last];
      GrantsItselfGrows(parse, init, last, id.agentId);
    }
  }

  lemma GrantsItselfGrows(parse: UuidParser, init: seq<Request>, last: Request, agent: string)
    ensures GrantsItself(parse, init + [last], agent) <==>
            GrantsItself(parse, init, agent) || GrantedOwner(parse, last, agent) == Some(agent)
  {
    var all := init + [last];
    if i :| 0 <= i < |init| && GrantedOwner(parse, init[i], agent) == Some(agent) {
      assert all[i] == init[i];
    }
    if GrantedOwner(parse, last, agent) == Some(agent) {
      assert all[|init|] == last;
    }
  }

  /** No escalation without a store hit: a changed uid was returned for this very agent. */
  lemma {:induction false} ChangedUidWasGranted(parse: UuidParser, requests: seq<Request>, id: Identity)
    requires AppliedAll(parse, requests, id).uid != id.uid
    ensures id.uid != id.agentId
    ensures exists i, g ::
      && 0 <= i < |requests|
      && NonblankHeader(requests[i].headers, APPROVAL_GRANT_HEADER) == Some(g) && parse(g).Some?
      && requests[i].store(parse(g).value, id.agentId) == Found(AppliedAll(parse, requests, id).uid)
  {
    AppliedAllExact(parse, requests, id);
    var i := GrantingRequest(parse, requests, id);
    var g := NonblankHeader(requests[i].headers, APPROVAL_GRANT_HEADER).value;
    assert requests[i].store(parse(g).value, id.agentId) == Found(AppliedAll(parse, requests, id).uid);
  }

  lemma {:induction false} GrantingRequest(parse: UuidParser, requests: seq<Request>, id: Identity)
    returns (i: nat)
    requires AppliedAll(parse, requests, id).uid != id.uid
    ensures i < |requests|
    ensures GrantedOwner(parse, requests[i], id.agentId) == Some(AppliedAll(parse, requests, id).uid)
  {
    var init, last := requests[..|requests| - 1], requests[|requests| - 1];
    AppliedAllExact(parse, init, id);
    if AppliedAll(parse, requests, id).uid == AppliedAll(parse, init, id).uid {
      i := GrantingRequest(parse, init, id);
    } else {
      i := |requests| - 1;
    }
  }
}
