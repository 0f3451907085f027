/**
 Trusted-header decoding: header values are bytes, readable as text when they are visible ASCII,
 spaces or tabs; the first value under a name counts.
 */
module ChirpHeaders {
  import opened Wrappers
  import opened Text

  const USER_ID_HEADER := "x-user-id"
  const AGENT_ID_HEADER := "x-agent-id"
  const APPROVAL_GRANT_HEADER := "x-approval-grant"
  const CAN_WRITE_HEADER := "x-user-can-write"

  const MAX_ID_CHARS := 128

  datatype Header = Header(name: string, value: Bytes)

  type HeaderMap = seq<Header>

  datatype ApiError = Unauthorized

  datatype TrustedHeaderUser = TrustedHeaderUser(
    uid: string, agentId: string, canWrite: bool, approvalGrantId: Option<string>)

  // ---- Reading headers ------------------------------------------------------------

  /** `HeaderMap::get`. */
  function Get(headers: HeaderMap, name: string): Option<Bytes> {
    if headers == [] then None
    else if headers[0].name == name then Some(headers[0].value)
    else Get(headers[1..], name)
  }

  predicate IsTextByte(b: byte) {
    0x20 <= b < 0x7F || b == 0x09
  }

  /** `HeaderValue::to_str`. */
  function ToStr(value: Bytes): Option<string> {
    if forall i :: 0 <= i < |value| ==> IsTextByte(value[i]) then
      Some(seq(|value|, i requires 0 <= i < |value| => value[i] as int as char))
    else None
  }

  function Readable(headers: HeaderMap, name: string): Option<string> {
    match Get(headers, name)
    case None => None
    case Some(value) => ToStr(value)
  }

  /** The trimmed header, with a blank one dropped. */
  function NonblankHeader(headers: HeaderMap, name: string): Option<string> {
    match Readable(headers, name)
    case None => None
    case Some(raw) => if Trim(raw) == "" then None else Some(Trim(raw))
  }

  // ---- The decoder -------------------------------------------------------------------

  /** `validated_id`. */
  function ValidatedId(raw: string): Result<string, ApiError> {
    var trimmed := Trim(raw);
    if trimmed == "" || |trimmed| > MAX_ID_CHARS || exists i :: 0 <= i < |trimmed| && IsControl(trimmed[i])
    then Failure(Unauthorized)
    else Success(trimmed)
  }

  /** The write flag: one of three spellings. */
  predicate CanWrite(headers: HeaderMap) {
    match Readable(headers, CAN_WRITE_HEADER)
    case None => false
    case Some(raw) => Trim(raw) in {"1", "true", "yes"}
  }

  /** `decode_trusted_headers`. */
  function DecodeTrustedHeaders(headers: HeaderMap): Result<TrustedHeaderUser, ApiError> {
    var uidRaw := NonblankHeader(headers, USER_ID_HEADER);
    if uidRaw.None? then Failure(Unauthorized) else
    var uid := ValidatedId(uidRaw.value);
    if uid.Failure? then Failure(uid.error) else
    var agentId := match Readable(headers, AGENT_ID_HEADER)
                   case None => uid
                   case Some(raw) => ValidatedId(raw);
    if agentId.Failure? then Failure(agentId.error) else
    Success(TrustedHeaderUser(uid.value, agentId.value, CanWrite(headers),
                              NonblankHeader(headers, APPROVAL_GRANT_HEADER)))
  }

  // ---- The first header of a name ----------------------------------------------------

  ghost predicate IsFirst(headers: HeaderMap, name: string, k: int) {
    0 <= k < |headers| && headers[k].name == name && forall j :: 0 <= j < k ==> headers[j].name != name
  }

  /** Of repeated headers the first counts. */
  lemma {:induction false} FirstHeaderExact(headers: HeaderMap, name: string, value: Bytes)
    ensures Get(headers, name) == Some(value) <==>
            exists k :: IsFirst(headers, name, k) && headers[k].value == value
  {
    if headers != [] {
      var rest := headers[1..];
      FirstHeaderExact(rest, name, value);
      if headers[0].name == name {
        assert IsFirst(headers, name, 0);
      } else {
        if k :| IsFirst(headers, name, k) && headers[k].value == value {
          assert forall j :: 0 <= j < k ==> rest[j] == headers[j + 1];
          assert IsFirst(rest, name, k - 1);
        }
        if k :| IsFirst(rest, name, k) && rest[k].value == value {
          assert forall j :: 0 < j <= k + 1 ==> headers[j] == rest[j - 1];
          assert IsFirst(headers, name, k + 1);
        }
      }
    }
  }

  // ---- What decoding means ----------------------------------------------------------------

  /** Trimmed, of 1 to 128 characters, without control characters. */
  ghost predicate IsValidId(s: string) {
    && IsTrimmed(s) && 1 <= |s| <= 128
    && forall i :: 0 <= i < |s| ==> 0x20 <= s[i] as int < 0x7F || 0xA0 <= s[i] as int
  }

  /** The header under `name` is readable and is a valid id, up to padding. */
  ghost predicate CarriesId(headers: HeaderMap, name: string, id: string) {
    && Readable(headers, name).Some?
    && IsPadded(Readable(headers, name).value, id) && IsValidId(id)
  }

  ghost predicate CarriesTrimmed(headers: HeaderMap, name: string, text: string) {
    && Readable(headers, name).Some?
    && IsTrimmed(text) && IsPadded(Readable(headers, name).value, text)
  }

  /** Validation finds exactly the valid ids: `id` is its result when the input is `id`, padded. */
  lemma ValidatedIdExact(raw: string, id: string)
    ensures ValidatedId(raw) == Success(id) <==> IsPadded(raw, id) && IsValidId(id)
    ensures ValidatedId(Trim(raw)) == ValidatedId(raw)
  {
    TrimExact(raw, id);
    TrimIsTrimmed(raw);
  }

  /** A validated id is a fixed point of validation. */
  lemma ValidatedIdIsStable(raw: string)
    requires ValidatedId(raw).Success?
    ensures ValidatedId(ValidatedId(raw).value) == ValidatedId(raw)
  {
    ValidatedIdExact(raw, ValidatedId(raw).value);
  }

  lemma NonblankHeaderExact(headers: HeaderMap, name: string, text: string)
    ensures NonblankHeader(headers, name) == Some(text) <==>
            text != "" && CarriesTrimmed(headers, name, text)
  {
    if Readable(headers, name).Some? {
      TrimExact(Readable(headers, name).value, text);
    }
  }

  /** The user that a set of headers describes, without trimming or validating. */
  ghost predicate Describes(headers: HeaderMap, u: TrustedHeaderUser) {
    && CarriesId(headers, "x-user-id", u.uid)
    && (if Readable(headers, "x-agent-id").Some? then CarriesId(headers, "x-agent-id", u.agentId)
        else u.agentId == u.uid)
    && (u.canWrite <==>
        exists t :: t in {"1", "true", "yes"} && CarriesTrimmed(headers, "x-user-can-write", t))
    && (match u.approvalGrantId
        case Some(g) => g != "" && CarriesTrimmed(headers, "x-approval-grant", g)
        case None => forall g :: g != "" ==> !CarriesTrimmed(headers, "x-approval-grant", g))
  }

  /** Decoding succeeds with `u` exactly when the headers describe `u`. */
  lemma DecodeExact(headers: HeaderMap, u: TrustedHeaderUser)
    ensures DecodeTrustedHeaders(headers) == Success(u) <==> Describes(headers, u)
  {
    CanWriteReading(headers);
    GrantReading(headers);
    IdsReading(headers, u);
  }

  lemma IdsReading(headers: HeaderMap, u: TrustedHeaderUser)
    ensures DecodeTrustedHeaders(headers) == Success(u) <==>
      && CarriesId(headers, USER_ID_HEADER, u.uid)
      && (if Readable(headers, AGENT_ID_HEADER).Some? then CarriesId(headers, AGENT_ID_HEADER, u.agentId)
          else u.agentId == u.uid)
      && u.canWrite == CanWrite(headers)
      && u.approvalGrantId == NonblankHeader(headers, APPROVAL_GRANT_HEADER)
  {
    UidReading(headers, u.uid);
    if Readable(headers, AGENT_ID_HEADER).Some? {
      ValidatedIdExact(Readable(headers, AGENT_ID_HEADER).value, u.agentId);
    }
  }

  lemma UidReading(headers: HeaderMap, uid: string)
    ensures CarriesId(headers, USER_ID_HEADER, uid) <==>
            && NonblankHeader(headers, USER_ID_HEADER).Some?
            && ValidatedId(NonblankHeader(headers, USER_ID_HEADER).value) == Success(uid)
  {
    if Readable(headers, USER_ID_HEADER).Some? {
      ValidatedIdExact(Readable(headers, USER_ID_HEADER).value, uid);
    }
  }

  lemma CanWriteReading(headers: HeaderMap)
    ensures (exists t :: t in {"1", "true", "yes"} && CarriesTrimmed(headers, CAN_WRITE_HEADER, t)) <==>
            CanWrite(headers)
  {
    if Readable(headers, CAN_WRITE_HEADER).Some? {
      var raw := Readable(headers, CAN_WRITE_HEADER).value;
      forall t ensures Trim(raw) == t <==> CarriesTrimmed(headers, CAN_WRITE_HEADER, t) {
        TrimExact(raw, t);
      }
      assert CarriesTrimmed(headers, CAN_WRITE_HEADER, Trim(raw));
    }
  }

  lemma GrantReading(headers: HeaderMap)
    ensures forall g :: NonblankHeader(headers, APPROVAL_GRANT_HEADER) == Some(g) <==>
              g != "" && CarriesTrimmed(headers, APPROVAL_GRANT_HEADER, g)
  {
    forall g ensures NonblankHeader(headers, APPROVAL_GRANT_HEADER) == Some(g) <==>
                     g != "" && CarriesTrimmed(headers, APPROVAL_GRANT_HEADER, g) {
      NonblankHeaderExact(headers, APPROVAL_GRANT_HEADER, g);
    }
  }

  // ---- Against the documentation ---------------------------------------------------------------

  /** The documented refusals: no valid user id, or a provided agent id that is not valid. */
  ghost predicate IsDocumentedRefusal(headers: HeaderMap) {
    || (forall id :: !CarriesId(headers, USER_ID_HEADER, id))
    || (Get(headers, AGENT_ID_HEADER).Some? && forall id :: !CarriesId(headers, AGENT_ID_HEADER, id))
  }

  /** An agent header is provided that is not readable as text. */
  predicate HasUnreadableAgent(headers: HeaderMap) {
    Get(headers, AGENT_ID_HEADER).Some? && Readable(headers, AGENT_ID_HEADER).None?
  }

  /**
   With a valid user id, a provided agent id that is not valid is refused exactly when its header
   is readable; an unreadable one counts as absent, and the user acts as its own agent.
   */
  lemma InvalidAgentExact(headers: HeaderMap, uid: string)
    requires CarriesId(headers, USER_ID_HEADER, uid)
    requires Get(headers, AGENT_ID_HEADER).Some?
    requires forall id :: !CarriesId(headers, AGENT_ID_HEADER, id)
    ensures DecodeTrustedHeaders(headers).Failure? <==> !HasUnreadableAgent(headers)
    ensures HasUnreadableAgent(headers) ==>
              DecodeTrustedHeaders(headers) == Success(TrustedHeaderUser(uid, uid, CanWrite(headers),
                                                 NonblankHeader(headers, APPROVAL_GRANT_HEADER)))
  {
    UidReading(headers, uid);
    AgentReading(headers);
  }

  lemma AgentReading(headers: HeaderMap)
    requires Readable(headers, AGENT_ID_HEADER).Some?
      || forall id :: !CarriesId(headers, AGENT_ID_HEADER, id)
    ensures Readable(headers, AGENT_ID_HEADER).Some? ==>
      (ValidatedId(Readable(headers, AGENT_ID_HEADER).value).Success? <==>
       exists id :: CarriesId(headers, AGENT_ID_HEADER, id))
  {
    if Readable(headers, AGENT_ID_HEADER).Some? {
      var raw := Readable(headers, AGENT_ID_HEADER).value;
      forall id ensures ValidatedId(raw) == Success(id) <==> CarriesId(headers, AGENT_ID_HEADER, id) {
        ValidatedIdExact(raw, id);
      }
      if ValidatedId(raw).Success? {
        assert CarriesId(headers, AGENT_ID_HEADER, ValidatedId(raw).value);
      }
    }
  }

  lemma UserReading(headers: HeaderMap)
    ensures (exists id :: CarriesId(headers, USER_ID_HEADER, id)) <==>
            && NonblankHeader(headers, USER_ID_HEADER).Some?
            && ValidatedId(NonblankHeader(headers, USER_ID_HEADER).value).Success?
  {
    forall id ensures CarriesId(headers, USER_ID_HEADER, id) <==>
                      && NonblankHeader(headers, USER_ID_HEADER).Some?
                      && ValidatedId(NonblankHeader(headers, USER_ID_HEADER).value) == Success(id) {
      UidReading(headers, id);
    }
    if NonblankHeader(headers, USER_ID_HEADER).Some? {
      var r := ValidatedId(NonblankHeader(headers, USER_ID_HEADER).value);
      assert r.Success? ==> CarriesId(headers, USER_ID_HEADER, r.value);
    }
  }

  /**
   The decoder refuses exactly what its documentation says, on all headers but those with a valid
   user id and an unreadable agent header.
   */
  lemma RefusalDocumentationExact(headers: HeaderMap)
    ensures (DecodeTrustedHeaders(headers).Failure? <==> IsDocumentedRefusal(headers)) <==>
            !(HasUnreadableAgent(headers) && exists uid :: CarriesId(headers, USER_ID_HEADER, uid))
  {
    UserReading(headers);
    AgentMissing(headers);
    AgentReading(headers);
  }

  lemma AgentMissing(headers: HeaderMap)
    ensures Readable(headers, AGENT_ID_HEADER).None? ==>
              forall id :: !CarriesId(headers, AGENT_ID_HEADER, id)
  {
  }

  /** An input where they differ: user "u" with an agent header of one byte outside ASCII. */
  lemma UnreadableAgentIsIgnored()
    ensures var headers := [Header(USER_ID_HEADER, [0x75]), Header(AGENT_ID_HEADER, [0xFF])];
            && IsDocumentedRefusal(headers)
            && DecodeTrustedHeaders(headers) == Success(TrustedHeaderUser("u", "u", false, None))
  {
    var headers := [Header(USER_ID_HEADER, [0x75]), Header(AGENT_ID_HEADER, [0xFF])];
    assert USER_ID_HEADER[2] != AGENT_ID_HEADER[2];
    assert |CAN_WRITE_HEADER| == |APPROVAL_GRANT_HEADER| > |AGENT_ID_HEADER| > |USER_ID_HEADER|;
    assert headers[1..] == [Header(AGENT_ID_HEADER, [0xFF])];
    GetFrom(headers, 1, AGENT_ID_HEADER);
    GetFrom(headers, 2, CAN_WRITE_HEADER);
    GetFrom(headers, 2, APPROVAL_GRANT_HEADER);
    assert ToStr([0x75]).value == "u";
    assert !IsTextByte(0xFF) && [0xFF as byte][0] == 0xFF;
    assert ToStr([0xFF]).None?;
    TrimOfTrimmed("u");
    AgentMissing(headers);
  }

  // ---- Forwarding a decoded user -------------------------------------------------------------

  predicate IsHeaderText(s: string) {
    forall i :: 0 <= i < |s| ==> 0x20 <= s[i] as int < 0x7F || s[i] as int == 0x09
  }

  lemma ToStrGivesHeaderText(value: Bytes)
    ensures ToStr(value).Some? ==> IsHeaderText(ToStr(value).value)
  {
  }

  lemma HeaderTextIsReadable(s: string)
    requires IsHeaderText(s)
    ensures ToStr(Utf8(s)) == Some(s)
  {
    assert IsAscii(s);
    Utf8OfAscii(s);
    forall i | 0 <= i < |s| ensures IsTextByte(Utf8(s)[i]) {
      assert Utf8(s)[i] as int == s[i] as int;
    }
    assert ToStr(Utf8(s)).value == s;
  }

  lemma TrimKeepsHeaderText(s: string)
    requires IsHeaderText(s)
    ensures IsHeaderText(Trim(s))
  {
    TrimExact(s, Trim(s));
    var core := Trim(s);
    var l, r :| IsBlank(l) && IsBlank(r) && s == l + core + r;
    forall i | 0 <= i < |core| ensures core[i] in s {
      assert core[i] == s[|l| + i];
    }
  }

  /** The headers a service sends to pass a decoded user on. */
  function Encode(u: TrustedHeaderUser): HeaderMap {
    [Header(USER_ID_HEADER, Utf8(u.uid)),
     Header(AGENT_ID_HEADER, Utf8(u.agentId)),
     Header(CAN_WRITE_HEADER, Utf8(if u.canWrite then "1" else "0"))]
    + (if u.approvalGrantId.Some? then [Header(APPROVAL_GRANT_HEADER, Utf8(u.approvalGrantId.value))]
       else [])
  }

  lemma EncodedHeaders(u: TrustedHeaderUser)
    ensures Get(Encode(u), USER_ID_HEADER) == Some(Utf8(u.uid))
    ensures Get(Encode(u), AGENT_ID_HEADER) == Some(Utf8(u.agentId))
    ensures Get(Encode(u), CAN_WRITE_HEADER) == Some(Utf8(if u.canWrite then "1" else "0"))
    ensures Get(Encode(u), APPROVAL_GRANT_HEADER) ==
            if u.approvalGrantId.Some? then Some(Utf8(u.approvalGrantId.value)) else None
  {
    var h := Encode(u);
    assert h[0].name == USER_ID_HEADER && h[1].name == AGENT_ID_HEADER && h[2].name == CAN_WRITE_HEADER;
    assert USER_ID_HEADER[2] != AGENT_ID_HEADER[2];
    assert |CAN_WRITE_HEADER| == |APPROVAL_GRANT_HEADER| > |AGENT_ID_HEADER| > |USER_ID_HEADER|;
    assert CAN_WRITE_HEADER[2] != APPROVAL_GRANT_HEADER[2];
    GetFrom(h, 1, AGENT_ID_HEADER);
    GetFrom(h, 2, CAN_WRITE_HEADER);
    GetFrom(h, 3, APPROVAL_GRANT_HEADER);
    if u.approvalGrantId.Some? {
      assert h[3..][0].name == APPROVAL_GRANT_HEADER;
    }
  }

  /** Headers of other names in front do not matter. */
  lemma {:induction false} GetFrom(headers: HeaderMap, k: nat, name: string)
    requires k <= |headers| && forall i :: 0 <= i < k ==> headers[i].name != name
    ensures Get(headers, name) == Get(headers[k..], name)
  {
    if k > 0 {
      GetFrom(headers[1..], k - 1, name);
      assert headers[1..][k - 1..] == headers[k..];
    } else {
      assert headers[0..] == headers;
    }
  }

  lemma DecodedTexts(headers: HeaderMap, u: TrustedHeaderUser)
    requires DecodeTrustedHeaders(headers) == Success(u)
    ensures IsValidId(u.uid) && IsHeaderText(u.uid) && IsValidId(u.agentId) && IsHeaderText(u.agentId)
    ensures u.approvalGrantId.Some? ==>
              var g := u.approvalGrantId.value; g != "" && IsTrimmed(g) && IsHeaderText(g)
  {
    DecodeExact(headers, u);
    ReadableIsHeaderText(headers, USER_ID_HEADER);
    ReadableIsHeaderText(headers, AGENT_ID_HEADER);
    ReadableIsHeaderText(headers, APPROVAL_GRANT_HEADER);
    TrimExact(Readable(headers, USER_ID_HEADER).value, u.uid);
    if Readable(headers, AGENT_ID_HEADER).Some? {
      TrimExact(Readable(headers, AGENT_ID_HEADER).value, u.agentId);
    }
    if Readable(headers, APPROVAL_GRANT_HEADER).Some? {
      TrimIsTrimmed(Readable(headers, APPROVAL_GRANT_HEADER).value);
    }
  }

  lemma ReadableIsHeaderText(headers: HeaderMap, name: string)
    ensures Readable(headers, name).Some? ==>
      IsHeaderText(Readable(headers, name).value) && IsHeaderText(Trim(Readable(headers, name).value))
  {
    if Readable(headers, name).Some? {
      ToStrGivesHeaderText(Get(headers, name).value);
      TrimKeepsHeaderText(Readable(headers, name).value);
    }
  }

  /** Passing a decoded user on as headers and decoding again gives the same user. */
  lemma DecodeEncodeDecode(headers: HeaderMap)
    requires DecodeTrustedHeaders(headers).Success?
    ensures DecodeTrustedHeaders(Encode(DecodeTrustedHeaders(headers).value))
            == DecodeTrustedHeaders(headers)
  {
    var u := DecodeTrustedHeaders(headers).value;
    DecodedTexts(headers, u);
    EncodedReadings(u);
    DecodeOfPlainIds(Encode(u), u.uid, u.agentId);
    EncodedFlag(u);
    if u.approvalGrantId.Some? {
      TrimOfTrimmed(u.approvalGrantId.value);
    }
  }

  lemma DecodeOfPlainIds(headers: HeaderMap, uid: string, agentId: string)
    requires IsValidId(uid) && IsValidId(agentId)
    requires Readable(headers, USER_ID_HEADER) == Some(uid)
    requires Readable(headers, AGENT_ID_HEADER) == Some(agentId)
    ensures DecodeTrustedHeaders(headers) == Success(TrustedHeaderUser(
              uid, agentId, CanWrite(headers), NonblankHeader(headers, APPROVAL_GRANT_HEADER)))
  {
    TrimOfTrimmed(uid);
    TrimOfTrimmed(agentId);
  }

  /** The encoded headers read back as the texts they were made from. */
  lemma EncodedReadings(u: TrustedHeaderUser)
    requires IsHeaderText(u.uid) && IsHeaderText(u.agentId)
    requires u.approvalGrantId.Some? ==> IsHeaderText(u.approvalGrantId.value)
    ensures Readable(Encode(u), USER_ID_HEADER) == Some(u.uid)
    ensures Readable(Encode(u), AGENT_ID_HEADER) == Some(u.agentId)
    ensures Readable(Encode(u), APPROVAL_GRANT_HEADER) == u.approvalGrantId
  {
    EncodedHeaders(u);
    HeaderTextIsReadable(u.uid);
    HeaderTextIsReadable(u.agentId);
    if u.approvalGrantId.Some? {
      HeaderTextIsReadable(u.approvalGrantId.value);
    }
  }

  lemma EncodedFlag(u: TrustedHeaderUser)
    ensures CanWrite(Encode(u)) == u.canWrite
  {
    var flag := if u.canWrite then "1" else "0";
    EncodedHeaders(u);
    HeaderTextIsReadable(flag);
    TrimOfTrimmed(flag);
  }
}
