# Verified model of the platform crates

A Dafny model of three crates and proofs of what they promise.

* **`platform-webhook-sig`** signs and verifies webhook deliveries. `webhook_sig.dfy` holds the
  signer, the streaming MAC and the verifier as the source has them; `hex.dfy` and `decimal.dfy`
  the codecs they use; `framing.dfy` the byte strings that are signed. `webhook_verdict.dfy` says
  what each verdict means, `webhook_laws.dfy` holds the round trip, the freshness window and the
  builder laws; `webhook_schemes.dfy` when one scheme's signature passes under the other.
  `webhook_consumer.dfy` and `webhook_rollout.dfy` model the two documented uses as
  step systems, replay defence and expand/contract migration, and prove properties of every run.
* **`platform-outbound-guard`** vets outbound destinations. `addresses.dfy` is the address
  classifier, `sorted_vec.dfy` the in-place sort and dedup, `outbound_guard.dfy` the URL policy,
  resolve-and-pin and the client, and `guard_runs.dfy` whole runs under a changing resolver.
* **`platform-chirp-auth`**: `chirp_headers.dfy` (trusted headers), `chirp_grants.dfy`
  (acting on behalf of a grant's owner) and `chirp_env.dfy` (the allowlist from the environment).

HMAC-SHA256 is an arbitrary function from key and message to 32 bytes (section 2 of RFC 2104 gives
the real one); nothing is claimed about forging it. The clock, UUIDs, the resolver's answers, the
grant store, UUID parsing and the environment are inputs. Strings are sequences of Unicode scalar
values with a real UTF-8 encoding. `i64` arithmetic wraps, as in a build without overflow checks.

## Where the code or its documentation says less or more

* The signed string does not determine its parts when a nonce has a dot: `CanonicalCoincide` gives
  exactly the coincidences, and `SignedCoincide` those of any two signed strings. Minting UUID nonces
  is not enough to make deliveries unrepeatable, because the presented nonce need not be the minted
  one (`DottedBodyRepeats`), and where legacy is accepted it need not be presented at all
  (`TolerantRepeats`). `MintedOnceExact` says which deliveries can repeat. `AtMostOnceExact` says what
  the replay defence of `platform-webhook-sig/src/lib.rs:13-21` takes: keeping records for the window,
  refusing nonces with a dot, and not accepting legacy.
* `platform-webhook-sig/src/lib.rs:49-51` says a body signed under one scheme never verifies under
  the other. Unless the MAC collides, that holds for an unchanged body (`StrippedIsMismatch`,
  `PromotedIsMismatch`). `StrippedExact` and `PromotedExact` give the exact condition, and
  `RespelledAsLegacy`, `RespelledAsCanonical` and `LegacyBodyReadAsNonce` deliveries that meet it.
* The freshness comparison is the mathematical one exactly under the condition of `FreshnessExact`;
  it holds for all nonnegative clock readings and timestamps (`NonnegativeReadingsFit`).
  `FarTimestampLooksFresh` is an input where it fails; `LateStaysLateExact`, `NegativeWindowExact`
  and `SafeTimestampsExact` say exactly what still holds for the others.
* `platform-outbound-guard/src/lib.rs:22` says a pinned client's connection cannot go anywhere else.
  That holds on URLs that keep the pin, which the client itself does not enforce (`PinExact`).
* `platform-chirp-auth/src/lib.rs:391` says the first non-empty issuer variable wins; the code takes
  the first one that is set, and a blank one ends the search. `IssuerDocumentationExact` says exactly
  when that makes a difference, `BlankPrimaryStaysOff` shows an environment.
* `platform-chirp-auth/src/lib.rs:114-115` says any provided id that fails validation is refused; the
  code treats an agent header that is not visible ASCII as absent. `RefusalDocumentationExact` says
  exactly when that makes a difference, `UnreadableAgentIsIgnored` shows the headers.

Tables and constants of the source are also stated as literals, so that no law rests on a name
alone: `WhitespaceExact`, `EncodedExamples`, `DigitsExact`, `HexDigitsExact`, `HexTextExample`,
`UuidExample` and `SocketOrderExact`. `ResolvingAttemptIsRecorded`, `SoundUrlIsRegistered` and
`ClockAndFlipExact` say that the steps of the run models take effect.

## Model

| member | source | states |
|---|---|---|
| WebhookSig.Signer.MacOver | platform-webhook-sig/src/lib.rs:253-261 | feeding timestamp, dot, nonce, dot, body to the stream tags the canonical string |
| WebhookSig.Signer.SignWith | platform-webhook-sig/src/lib.rs:81-88 | the signature is `sha256=` and the lower-case hex of the MAC over the canonical string; timestamp and nonce go out unchanged |
| WebhookSig.Signer.Sign | platform-webhook-sig/src/lib.rs:73-77 | the timestamp is the decimal text of the clock reading, with a minus sign if it is negative, no plus sign and no leading zero; the nonce is the fresh UUID |
| WebhookSig.Verifier.constructor | platform-webhook-sig/src/lib.rs:162-168 | a new verifier accepts only the canonical scheme, with the 300-second window |
| WebhookSig.Verifier.WithFreshnessSecs | platform-webhook-sig/src/lib.rs:170-173 | only the window changes |
| WebhookSig.Verifier.AlsoAccept | platform-webhook-sig/src/lib.rs:177-182 | the scheme is added unless it is there already; nothing else changes |
| WebhookSig.Verifier.TagMatches | platform-webhook-sig/src/lib.rs:222-232 | the verifier's own feeding of the stream compares against the tag of the chosen scheme's signed string |
| WebhookSig.Verifier.Verify | platform-webhook-sig/src/lib.rs:199-250 | the early-return, loop and stream code computes the verdict function that the lemmas below characterise |
| WebhookVerdict.AcceptExact | platform-webhook-sig/src/lib.rs:199-250 | acceptance with a result exactly when the headers are paddings of a denoted integer, the fitting nonce and the prefixed hex, in either case, of the MAC over the framed parts, the scheme is accepted and the skew is within the window |
| WebhookVerdict.RejectExact | platform-webhook-sig/src/lib.rs:115-128 | each error exactly, with its place in the order of checks; timestamp errors only on deliveries whose MAC matched |
| WebhookLaws.SignWithVerifies | platform-webhook-sig/src/lib.rs:79-88 | for arbitrary timestamp and nonce texts, `sign_with` output verifies exactly when the nonce is not blank, trimming leaves the MAC alone, the timestamp is an integer and it is fresh |
| WebhookLaws.SignThenVerify | platform-webhook-sig/src/lib.rs:73-88 | every minted delivery, padded and in either hex case, is accepted with its own nonce and time while fresh, and reported stale with the true skew otherwise |
| WebhookLaws.FreshnessExact | platform-webhook-sig/src/lib.rs:234-243 | the wrapped comparison equals the mathematical one exactly under a condition on the distance and the window |
| WebhookLaws.FarTimestampLooksFresh | platform-webhook-sig/src/lib.rs:236-237 | a concrete timestamp and clock reading where the comparison is wrong for every window |
| WebhookLaws.AcceptanceExact | platform-webhook-sig/src/lib.rs:234-243 | at which clock readings a delivery once accepted is accepted, for every 64-bit reading and timestamp |
| WebhookLaws.AcceptanceWindow | platform-webhook-sig/src/lib.rs:32-34 | wherever the distance fits in 64 bits, a delivery once accepted is accepted exactly within the closed window around its timestamp |
| WebhookLaws.DefaultWindow | platform-webhook-sig/src/lib.rs:32-34 | a new verifier accepts a minted delivery exactly from 300 seconds before its timestamp to 300 seconds after it |
| WebhookLaws.LateStaysLateExact | platform-webhook-sig/src/lib.rs:6-9 | exactly when a delivery found too late is refused at every later time |
| WebhookLaws.LateDeliveryReturns | platform-webhook-sig/src/lib.rs:234-243 | for every negative timestamp, a delivery that is stale at one time and accepted at a later one |
| WebhookLaws.NegativeWindowExact | platform-webhook-sig/src/lib.rs:170-173 | a negative window accepts exactly the otherwise acceptable deliveries whose distance is 2^63, so none at nonnegative readings |
| WebhookLaws.BuildInvariant | platform-webhook-sig/src/lib.rs:159-186 | after any chain of builder calls the accepted schemes have no repeats and include the canonical one, legacy is in exactly if it was asked for, and the last window counts |
| WebhookLaws.CallOrderIsIrrelevant | platform-webhook-sig/src/lib.rs:170-182 | chains naming the same schemes and ending on the same window give equal verdicts |
| WebhookLaws.MismatchMeansMac | platform-webhook-sig/src/lib.rs:204-213 | on a built verifier the refused-canonical arm is unreachable: a mismatch means a MAC mismatch |
| WebhookLaws.AlsoAcceptIsConservative | platform-webhook-sig/src/lib.rs:175-182 | one more scheme never changes an acceptance nor a verdict on a delivery with a nonce; only a missing-nonce refusal can change |
| Framing.CanonicalCoincide | platform-webhook-sig/src/lib.rs:3-9 | exactly when two canonical strings over dot-free timestamps are equal |
| Framing.CanonicalInjective | platform-webhook-sig/src/lib.rs:253-261 | with dot-free nonces the canonical string determines timestamp, nonce and body |
| Framing.SignedCoincide | platform-webhook-sig/src/lib.rs:222-230 | exactly when two signed strings of whatever schemes coincide, for any timestamp text against a dot-free one |
| Framing.SignedStringIsFormat | platform-webhook-sig/src/lib.rs:53-60 | on a text body the signed bytes are those of the documented formats, timestamp, nonce and body with dots between |
| WebhookSchemes.SignatureExact | platform-webhook-sig/src/lib.rs:199-250 | for a signature over any parts under either scheme, exactly which deliveries it is accepted on |
| WebhookSchemes.StrippedExact | platform-webhook-sig/src/lib.rs:195-198 | a canonical signature on a delivery without a nonce verifies exactly when legacy is accepted, the timestamp is the signed one (up to its first dot), an integer and fresh, and the body is what was signed after it: nonce, dot and signed body |
| WebhookSchemes.StrippedIsMismatch | platform-webhook-sig/src/lib.rs:464-482 | stripping the nonce and changing nothing else is always a mismatch on a tolerant verifier |
| WebhookSchemes.PromotedExact | platform-webhook-sig/src/lib.rs:45-60 | a legacy signature on a delivery with a nonce verifies exactly when canonical is accepted, the timestamp is the signed one (up to its first dot), an integer and fresh, and nonce, dot and body are what was signed after it |
| WebhookSchemes.PromotedIsMismatch | platform-webhook-sig/src/lib.rs:45-60 | adding a nonce to a legacy delivery and changing nothing else is always a mismatch |
| WebhookSchemes.RespelledAsLegacy | platform-webhook-sig/src/lib.rs:49-51 | a minted delivery without its nonce, over nonce-dot-body, is accepted as legacy where legacy is accepted |
| WebhookSchemes.RespelledAsCanonical | platform-webhook-sig/src/lib.rs:49-51 | a legacy delivery over nonce-dot-body is accepted as canonical under that nonce, also by a canonical-only verifier |
| WebhookSchemes.DottedTimestampRespelled | platform-webhook-sig/src/lib.rs:79-88 | a signature made over a timestamp with a dot fails on its own delivery and passes with the piece after the dot as the nonce |
| Framing.DottedNonceIsAmbiguous | platform-webhook-sig/src/lib.rs:253-261 | two different nonce and body pairs with one canonical string |
| Hex.HexLower | platform-webhook-sig/src/lib.rs:271-278 | the loop writes two lower-case digits a byte, high half first |
| Hex.ShiftOrIsPositional | platform-webhook-sig/src/lib.rs:298 | shifting and or-ing two nibbles is sixteen times one plus the other |
| Hex.HexDecode | platform-webhook-sig/src/lib.rs:280-302 | the loop over the UTF-8 bytes succeeds exactly on even-length all-hex text, with the byte each pair spells |
| Hex.HexRoundTrip | platform-webhook-sig/src/lib.rs:404-409 | decoding undoes encoding, for all byte strings |
| Hex.HexLowersCase | platform-webhook-sig/src/lib.rs:271-302 | encoding a decoded text gives the text lower-cased |
| Hex.HexDecodesTo | platform-webhook-sig/src/lib.rs:280-302 | a text decodes to given bytes exactly when it spells their encoding up to case |
| Hex.HexEqualUpToCase | platform-webhook-sig/src/lib.rs:286-293 | decodable texts decode alike exactly when they agree up to case |
| Decimal.ParseExact | platform-webhook-sig/src/lib.rs:235 | parsing succeeds exactly on an optional sign and digits whose number fits in 64 bits, with that number |
| Decimal.ParsePrintI64 | platform-webhook-sig/src/lib.rs:74 | parsing undoes printing for every 64-bit integer |
| Decimal.PrintExact | platform-webhook-sig/src/lib.rs:74 | printing gives exactly the text of digits, without a leading zero unless it is zero itself, that denotes the number, with a minus sign just when it is negative |
| Text.TrimExact | platform-webhook-sig/src/lib.rs:200-202 | trimming yields exactly the core of any whitespace padding |
| Text.Utf8Injective | platform-webhook-sig/src/lib.rs:224-227 | texts with equal UTF-8 bytes are equal |
| WebhookConsumer.SameBytesExact | platform-webhook-sig/src/lib.rs:13-21 | in every run two deliveries taken, of whatever schemes, share their signed bytes exactly when their timestamp texts agree and one extends the nonce of the other by a dotted piece of its body, or respells it as legacy |
| WebhookConsumer.FreshNonceIsTaken | platform-webhook-sig/src/lib.rs:102-106 | after any run a minted fresh delivery under a new nonce is taken, with exactly the signed parts, and recorded |
| WebhookConsumer.FreshDeliveryIsTaken | platform-webhook-sig/src/lib.rs:102-106 | after any run a verified delivery of either scheme, whose nonce is not refused and whose like (same nonce, or same body field for legacy) was never taken, is taken with exactly the parts presented |
| WebhookConsumer.KnownDeliveryIsIgnored | platform-webhook-sig/src/lib.rs:18-21 | after any run a verified delivery whose like was taken and is still in its window, or whose nonce is refused, changes nothing |
| WebhookConsumer.TakenOnceExact | platform-webhook-sig/src/lib.rs:18-21 | signed bytes are taken at most once over all runs, as whatever scheme, exactly when they can be read in one way only |
| WebhookConsumer.MintedOnceExact | platform-webhook-sig/src/lib.rs:73-77 | what `sign` minted is taken at most once over all runs exactly when legacy is not accepted and dotted nonces are refused or no dotted piece in front of the body could join the nonce |
| WebhookConsumer.DottedBodyRepeats | platform-webhook-sig/src/lib.rs:18-21 | a run that takes one minted signature twice under two nonces, however long nonces are kept |
| WebhookConsumer.TolerantRepeats | platform-webhook-sig/src/lib.rs:102-106 | where legacy is accepted, a run that takes one minted signature first as canonical and then as legacy, whatever body field legacy deliveries are known by |
| WebhookConsumer.AtMostOnceExact | platform-webhook-sig/src/lib.rs:18-21 | at-most-once delivery over all runs, all pairs taken and both schemes holds exactly when records are kept for the freshness window, dotted nonces are refused and legacy is not accepted (or the window is negative) |
| WebhookConsumer.SafeTimestampsExact | platform-webhook-sig/src/lib.rs:234-243 | the timestamps for which no run repeats a delivery are exactly the nonnegative ones, given that dotted nonces are refused and legacy is not accepted (or the window is negative) |
| WebhookRollout.FreshAlwaysVerifies | platform-webhook-sig/src/lib.rs:149-152 | in every reachable rollout state every untampered delivery of anything sent, in either scheme, verifies with its own parts while fresh and is refused otherwise |
| WebhookRollout.DropExact | platform-webhook-sig/src/lib.rs:45-60 | dropping legacy refuses only what would be stale exactly when every legacy window has passed |
| WebhookRollout.SentExact | platform-webhook-sig/src/lib.rs:45-48 | what a run has sent is exactly what its send events say, legacy before the flip and canonical after it |
| WebhookRollout.DropEffectExact | platform-webhook-sig/src/lib.rs:149-152 | dropping leaves a canonical-only verifier exactly when the sender was told to flip and every legacy window has passed, and one that accepts both schemes otherwise |
| WebhookRollout.RolloutCompletes | platform-webhook-sig/src/lib.rs:149-152 | after any run: flip, wait out the last legacy window, drop; the verifier is then canonical-only |
| WebhookRollout.CarriedVerdict | platform-webhook-sig/src/lib.rs:199-250 | the verdict of any verifier on an untampered delivery of either scheme |
| Addresses.PublicIpv4Exact | platform-outbound-guard/src/lib.rs:132-160 | for every 32-bit address the octet patterns agree with the table of fourteen blocks |
| Addresses.PublicIpv4Ranges | platform-outbound-guard/src/lib.rs:132-140 | the public IPv4 addresses as explicit numeric ranges |
| Addresses.PublicIpv6Exact | platform-outbound-guard/src/lib.rs:162-176 | for every 128-bit address: public exactly when it embeds a public IPv4 address or is global unicast outside the documentation prefix |
| Addresses.PublicIpExact | platform-outbound-guard/src/lib.rs:115-130 | the check on an address of either family: outside the fourteen blocks, or embedding such an address, or global unicast outside the documentation prefix |
| Addresses.EmbeddingsKeepTheVerdict | platform-outbound-guard/src/lib.rs:164-166 | mapped and compatible forms (section 2.5.5 of RFC 4291) get the IPv4 verdict |
| Addresses.SpecialIpv6IsNeverPublic | platform-outbound-guard/src/lib.rs:167-169 | no loopback, unspecified, unique-local, link-local or multicast address is public |
| SortedVec.Vec.Sort | platform-outbound-guard/src/lib.rs:259 | in place: sorted, and a permutation |
| SortedVec.Vec.DropRepeats | platform-outbound-guard/src/lib.rs:260 | in place: of each run of equal neighbours the first stays |
| SortedVec.DedupOfSorted | platform-outbound-guard/src/lib.rs:259-260 | dedup of a sorted list is strictly sorted |
| SortedVec.StrictlySortedUnique | platform-outbound-guard/src/lib.rs:259-260 | strictly sorted lists with the same elements are equal |
| OutboundGuard.ResolvePinned | platform-outbound-guard/src/lib.rs:232-268 | every outcome exactly; on success the pinned addresses are strictly sorted with the answer's element set, all public |
| OutboundGuard.ValidateExact | platform-outbound-guard/src/lib.rs:76-100 | a text passes exactly when it parses to an https URL with a host, no userinfo and, if the host is a literal, one outside the special ranges; each refusal with its place in the order of checks |
| OutboundGuard.ResolveExact | platform-outbound-guard/src/lib.rs:232-268 | resolution succeeds exactly on such a URL whose host is a literal, or a domain answered with at least one address and none in a special range; each refusal with its place in the order |
| OutboundGuard.OutcomeDependsOnTheSet | platform-outbound-guard/src/lib.rs:255-267 | reordering or repeating the resolver's addresses changes nothing in the result |
| OutboundGuard.DestinationIsChecked | platform-outbound-guard/src/lib.rs:178-188 | `addrs` is empty exactly for literal hosts and all checked public |
| OutboundGuard.ClientFor | platform-outbound-guard/src/lib.rs:211-219 | no redirects, no proxy, the host pinned to the checked addresses when there are any |
| OutboundGuard.ClientIsPinned | platform-outbound-guard/src/lib.rs:202-210 | for every URL the client is used on, exactly where it may connect: a literal as it stands, its own host at the answered addresses, any other domain where its own resolver says |
| OutboundGuard.PinExact | platform-outbound-guard/src/lib.rs:18-25 | the client stays with public addresses, whatever its own resolver answers, exactly on URLs without a host, with its own host or with a public literal |
| OutboundGuard.RegistrationIsNotEnough | platform-outbound-guard/src/lib.rs:72-75 | a passing domain URL can still resolve to a refusal |
| GuardRuns.EveryConnectionIsGuarded | platform-outbound-guard/src/lib.rs:16-25 | in every run, with clients kept and used on any URL, each connection belongs to an attempt that passed, on that attempt's host goes to what it checked, and is public on every URL that keeps the pin |
| GuardRuns.RefusedAttemptNeverConnects | platform-outbound-guard/src/lib.rs:229-231 | however a run goes on, no connection ever belongs to a refused attempt |
| GuardRuns.EveryAttemptUrlIsSound | platform-outbound-guard/src/lib.rs:83-100 | in every run each connection belongs to an attempt on an https URL with a host and without userinfo, and each registered URL is such a URL |
| GuardRuns.SafeUseExact | platform-outbound-guard/src/lib.rs:22-25 | at any point of any run, using a passing attempt's client on a URL is certain to stay public exactly when the URL keeps the pin |
| GuardRuns.CheckedAddressesAreReachable | platform-outbound-guard/src/lib.rs:222-227 | at any later point, also after refusals, the client of a passing attempt can reach every address checked for it |
| ChirpHeaders.DecodeExact | platform-chirp-auth/src/lib.rs:128-163 | decoding succeeds with a user exactly when the headers describe that user |
| ChirpHeaders.FirstHeaderExact | platform-chirp-auth/src/lib.rs:131-132 | of repeated headers of one name the first one is read |
| ChirpHeaders.RefusalDocumentationExact | platform-chirp-auth/src/lib.rs:108-115 | the decoder refuses exactly what is documented, on all headers but those with a valid user id and an unreadable agent header |
| ChirpHeaders.InvalidAgentExact | platform-chirp-auth/src/lib.rs:146-149 | with a valid user id, an invalid agent id is refused exactly when its header is readable; otherwise the user is its own agent |
| ChirpHeaders.UnreadableAgentIsIgnored | platform-chirp-auth/src/lib.rs:146-149 | concrete headers with an invalid agent id that decode all the same |
| ChirpHeaders.ValidatedIdExact | platform-chirp-auth/src/lib.rs:97-106 | validation finds exactly the trimmed ids of 1 to 128 characters without controls |
| ChirpHeaders.ValidatedIdIsStable | platform-chirp-auth/src/lib.rs:94-106 | a validated id is a fixed point |
| ChirpHeaders.DecodeEncodeDecode | platform-chirp-auth/src/lib.rs:117-127 | a decoded user passed on as headers decodes to the same user |
| ChirpGrants.OnBehalfOf.ApplyGrant | platform-chirp-auth/src/lib.rs:231-261 | the identity becomes the specified one; the agent is not touched |
| ChirpGrants.AppliedExact | platform-chirp-auth/src/lib.rs:231-261 | one request does exactly this: the trimmed grant header is copied, and a machine whose parsed grant id is found in the store becomes the owner named there; otherwise uid and agent stay |
| ChirpGrants.LastRequestExact | platform-chirp-auth/src/lib.rs:226-227 | the same for the last request of any sequence: a grant found takes effect, whatever came before |
| ChirpGrants.ApplyIsIdempotent | platform-chirp-auth/src/lib.rs:217-227 | applying the same request twice is applying it once |
| ChirpGrants.AppliedAllExact | platform-chirp-auth/src/lib.rs:210-230 | the identity after any sequence of requests and stores, in closed form |
| ChirpGrants.ChangedUidWasGranted | platform-chirp-auth/src/lib.rs:226-227 | a changed uid was returned by some request's store for the parsed grant id and this agent |
| ChirpEnv.SplitJoin | platform-chirp-auth/src/lib.rs:413-415 | splitting undoes joining comma-free pieces |
| ChirpEnv.JoinSplit | platform-chirp-auth/src/lib.rs:413-415 | joining undoes splitting, and pieces hold no comma |
| ChirpEnv.CleanedExact | platform-chirp-auth/src/lib.rs:372-376 | the trim and filter keep exactly the nonempty ids that occur padded |
| ChirpEnv.NewExact | platform-chirp-auth/src/lib.rs:371-385 | `new` keeps the issuer as given and accepts exactly the nonempty ids that occur, padded, in the list |
| ChirpEnv.CleaningIsIdempotent | platform-chirp-auth/src/lib.rs:371-376 | the second trim and filter in `new` change nothing |
| ChirpEnv.FromEnvExact | platform-chirp-auth/src/lib.rs:401-423 | a verifier results exactly when the deciding issuer variable is not blank and some id occurs, and it accepts exactly those ids |
| ChirpEnv.IssuerDocumentationExact | platform-chirp-auth/src/lib.rs:391-393 | choosing the first set variable and choosing the first one that is not blank give the same result on all environments but those where a blank variable decides, a later one is not blank and the list holds an id |
| ChirpEnv.BlankPrimaryStaysOff | platform-chirp-auth/src/lib.rs:402-412 | a concrete environment where the two choices differ |
| ChirpEnv.FromEnvReadsJoin | platform-chirp-auth/src/lib.rs:397-423 | reading back a joined list of padded ids and blanks gives exactly the ids |

## Left out

- WebhookSig.Verifier.Verify: does not model a build with overflow checks, in which the subtraction or the absolute value panics exactly where the distance does not fit in 64 bits; the model wraps instead.
- WebhookConsumer.Step: does not model how a service finds the body field that legacy deliveries are known by, nor their dedup across services; the field is an arbitrary function of the body.
- HMAC-SHA256 itself, UUID generation, the system clock, and constant-time comparison.
- URL parsing, DNS, TLS, proxies and redirects as implemented; the client model says only which addresses it may contact.
- The text form of IP literals in `Destination.host`, and error message texts and `Display`.
- The standard library's sorting algorithm: insertion stands in for the unstable sort, which has the same result on a total order.
- `MachineAuth::verify`, bearer tokens and JWKS: the decisions are in `chirp-auth-client`, which is not part of this model, as is what its config makes of the issuer.
- `platform-chirp-auth/src/testkit.rs`, and the crates `platform-http-error`, `platform-vault-dynamo`, `platform-lambda`, `platform-notary`, `platform-drive-deposit` and `platform-sg-graph-client`: thin glue over libraries.
