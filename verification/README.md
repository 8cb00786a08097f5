# Verification model of the guardrail platform

This project models the parts of the repository whose correctness finite examples cannot settle, and proves
properties of the models for every input, every registry and every run. `dafny verify dfyconfig.toml` checks all
of it. The registry is a parameter throughout: any finite table of resources, operations and rules with dot-free,
distinct names.

- **Signed bytes.** `Json` holds JavaScript values with their property enumeration order, the JSON printer and a
  parser of JSON text with white space; `Canonical` holds `canonicalise`; `Envelopes` the MAC inputs, signatures and
  freshness; `Wire` the schemas on both sides of the bus. `JsonText`, `ArrayIndices`, `CanonicalOrder` and `SignedText`
  say in plain terms what these come to: the letters printed, the order of keys, the signed and sent texts key by key.
- **The two-halved block.** `Registry` and `Wiring` hold the derived tables, service boot and the generated NATS
  permissions; `Guardrail` holds `dispatch`, `handle`, the consumer and the reply checks; `Bus` is a step system over
  all of them in which anybody may publish, copy, delay and reorder messages and any process may die after its
  handler; `Delivery` holds at-least-once delivery to the audit trail and the meter.
- **Checker walks.** `Walks` holds the architecture checker's graph walks over a syntax tree and a possibly cyclic map
  of bindings; `WalkNodes` says what they read off each kind of node.
- **nkeys.** `Register` is the algebra of a dividing shift register, `Crc` its instance CRC-16/XMODEM and the table
  loops, `LongDivision` division by hand with a written-out divisor, `Word` what shifts, masks and `|` do to a 32-bit
  word, `Nkey` the base32 loops over that word and the seed on disk.
- **Stores.** `RateLimit`, `Projects`, `Identity`, `IdentityService` and `Tenancy` hold the mutable stores: the
  classes change their fields as the source does, each method is tied to a specification function, and the
  theorems are about runs of those functions; `IdentityColumns` says column by column what each identity call writes
  and shows. `Table` and `Prelude` hold what they share.

sha256 and HMAC are injective functions, as a hypothesis named `Ideal` that `Envelopes.IdealExists` shows can be met;
a MAC can be copied by anybody and made only with the secret. Strings are sequences of UTF-16 code units where the
source compares or prints them.

## What the code does that its comments do not say

- The in-memory limiter hands out the bucket itself and reads it after an await, so simultaneous requests see each
  other's counts: a window may let in fewer than its maximum, and under every rule whose window lasts at all, one
  more than the maximum arriving together are all refused (`RateLimit.TogetherAllRefused`). It never lets in more.
  `RateLimit.WindowAdmits` says, by the order of arrivals and reads alone, when it lets in as many as it should.
- A paging cursor keeps milliseconds of a microsecond column, so rows of the same millisecond as the end of a page
  are skipped (`Projects.SplitLosesRow`); `Projects.PagingExactly` says from the table and the limit when that
  happens.
- `member.delete` carries no last-owner guard although the rule's comment counts two operations that need one
  (`Identity.RemovalOrphans`).
- An error can come after the effect. The block answers an internal error for a handler that has run exactly when the
  publish of its event failed or its output cannot be signed (`Guardrail.RefusedAfterReturn`, and in every run
  `Bus.RoundTrip`). Of the errors the identity handlers answer themselves, two keep their effect and no others
  (`Identity.RefusalLeaves`): `setMemberRole` writes before it looks the person up (`Identity.RoleWrittenUnseen`), and
  `organization.delete` removes members and invitations even where it answers that there is no organisation
  (`Identity.DeletedUnfound`).
- `organization.update` refuses an organisation's own slug as taken (`Identity.OwnSlugRefused`).
- `decodeSeed` reads neither prefix nor checksum (`Nkey.ChecksumUnread`): it cuts out bytes 2 to 34 of whatever the
  text holds, fewer if it is shorter.
- Canonical objects are printed in JavaScript's enumeration order, array indices first, not in the sorted order; the
  order is nevertheless independent of the input's.
- `handle` signs a refusal for whatever meta the message carries when the signature is bad. So anybody on the bus can
  have a refusal with the code UNTRUSTED_ENVELOPE signed and accepted for a request nobody sent (`Bus.ForgedRefusal`);
  a refusal with any other code follows a request the gateway signed (`Bus.ReplySafety`).
- A reply is bound to request id, resource and operation, not to organisation, user or payload
  (`Guardrail.AcceptedForExactly`). So an accepted success shows an execution with those three, which need not be
  the request asked (`Bus.SharedReply`); where no other request shares them, it is (`Bus.ReplySettles`).
- Gate 4 of `dispatch` can never refuse, since gate 3 implies it.

## Model

| member | source | states |
|---|---|---|
| Json.ParsePrint | packages/contracts/src/envelope.ts:178-180 | JSON.parse undoes JSON.stringify on every JSON value whose objects are in JavaScript enumeration order: every key, `__proto__` included, and every string, lone surrogates included, comes back |
| Json.PrintInjective | packages/contracts/src/envelope.ts:178-180 | the printed text determines the value: the printer is uniquely decodable |
| Json.DefineAllOrdered | packages/contracts/src/envelope.ts:142-161 | defining any list of properties on an object, duplicates included, leaves one property per key, the last written, with array indices first in numeric order |
| Json.ParseIsParsed | packages/transport/src/connection.ts:71 | every text JSON.parse accepts, duplicate keys included, gives a value with one property per key in enumeration order, in which a number is finite or too large |
| Json.InfinityParses | packages/contracts/src/signing.ts:41-44 | `1e999` parses to Infinity |
| Json.PrintWellFormed | packages/contracts/src/envelope.ts:178-184 | the text that is hashed holds no lone surrogate, whatever the strings inside the value hold, so encoding it to UTF-8 loses nothing |
| JsonText.HexEscapes | packages/contracts/src/envelope.ts:178-180 | JSON.stringify writes the other controls and lone surrogates as `\u` and four lower-case hexadecimal digits |
| JsonText.IntegersExactly | packages/contracts/src/envelope.ts:178-180 | an integer is written in decimal without leading zeros, a negative one behind a minus sign |
| JsonText.CollectionsExactly | packages/contracts/src/envelope.ts:178-180 | arrays and objects of any size are their members' texts in order, with a comma between neighbours, a colon after each quoted key, and no white space |
| JsonText.StringifiedExactly | packages/contracts/src/envelope.ts:168-180 | what JSON.stringify leaves out: undefined and functions are null as items and gone as properties; an invalid Date and a non-finite number read null; a Date is its ISO string |
| JsonText.DoublesExactly | packages/contracts/src/envelope.ts:33-57 | a number is finite exactly below 2^1024 - 2^970 in magnitude, and a safe integer exactly below 2^53 |
| ArrayIndices.ArrayIndexExactly | packages/contracts/src/envelope.ts:142-161 | the keys enumerated first are exactly the decimals of the numbers up to 4294967294, and among them the order is that of the numbers |
| Canonical.CanonicaliseValue | packages/contracts/src/envelope.ts:122-166 | the recursive walk, its object branch a loop that defines sorted entries on a fresh object, computes the function that CanonicalOrder.CanonicalExactly determines, throws included |
| Canonical.CanonicaliseObject | packages/contracts/src/envelope.ts:138-162 | the object branch on its own: sorting the entries first and canonicalising each in a loop is the same as canonicalising them and assembling the result |
| Canonical.CanonicaliseArray | packages/contracts/src/envelope.ts:128 | the array branch: every item canonicalised in place, the whole refused when one is |
| Canonical.ThrowsExactly | packages/contracts/src/envelope.ts:122-166 | canonicalise throws exactly when an undefined, a function, a non-finite number or an invalid Date occurs somewhere inside |
| Canonical.CanonicalIsJson | packages/contracts/src/envelope.ts:122-166 | what it returns is a JSON value with its objects in enumeration order, so the printer round trip applies to it |
| Canonical.AssemblePermute | packages/contracts/src/envelope.ts:139-161 | two entry lists with distinct keys that are permutations of each other assemble to the same object |
| Canonical.CanonicalSame | packages/contracts/src/envelope.ts:122-166 | two values have one canonical form if and only if they agree at every depth up to key order and a Date against its ISO string |
| CanonicalOrder.CanonicalAscending | packages/contracts/src/envelope.ts:139-161 | in every object of a canonical form, at every depth, array indices come first in numeric order and the other keys ascend by code units |
| CanonicalOrder.CanonicalExactly | packages/contracts/src/envelope.ts:122-166 | a value is the canonical form of another if and only if it is a JSON value, agrees with the other up to key order and Dates, and its keys ascend at every depth |
| Canonical.CanonicalJsonSame | packages/contracts/src/envelope.ts:168-180 | the same for the printed text: equal canonical strings exactly when the JSON projections are equal and neither value throws |
| Canonical.WireTransparent | packages/contracts/src/envelope.ts:168-180 | a value that can be signed survives print and parse with its canonical text unchanged |
| Canonical.ParsedIsValid | packages/transport/src/connection.ts:71 | whatever text is published, what it parses to is a value canonicalise is defined on, throws included |
| Canonical.ParseExactly | packages/contracts/src/signing.ts:41-44 | among the values texts parse to, those that can be signed are exactly the JSON values; the others hold a number too large |
| Envelopes.EnvelopeBytesExactly | packages/contracts/src/envelope.ts:230-261 | the signed bytes determine the domain, the meta up to the order of permissions (an absent traceparent told from every string) and the payload up to key order, and are determined by them; a request never shares bytes with an event |
| Envelopes.ReplyBytesExactly | packages/contracts/src/envelope.ts:285-295 | the signed bytes of a reply determine request id, resource, operation, outcome and body, and are determined by them |
| Envelopes.ReplyIsNoEnvelope | packages/contracts/src/envelope.ts:230-295 | no reply has the signed bytes of a request or of an event |
| SignedText.EnvelopeListed | packages/contracts/src/envelope.ts:230-261 | the bytes signed for a request or an event are the JSON text of one object with fourteen named keys in alphabetical order, the domain, the key id `v1`, the sorted permissions, an absent traceparent as null and the hash of the canonical payload among them |
| SignedText.ReplyListed | packages/contracts/src/envelope.ts:285-295 | the bytes signed for a reply are the JSON text of one object with six named keys in alphabetical order |
| SignedText.SignaturesAreMacs | packages/contracts/src/signing.ts:36-80 | a signature is the MAC of those bytes under the secret |
| Envelopes.VerifiesExactly | packages/contracts/src/signing.ts:36-80 | a signature made for a request or an event verifies as a request exactly for the same request content, and never when it was made for an event |
| Envelopes.UnsignableRefused | packages/contracts/src/signing.ts:41-54 | each verifier refuses a body canonicalise throws on, whatever signature comes with it |
| Envelopes.ReplayWindow | packages/contracts/src/envelope.ts:321-353 | an rpc envelope that passes was issued at most the skew in the future and less than the longest budget plus two skews ago |
| Envelopes.FreshnessOverTime | packages/contracts/src/envelope.ts:321-353 | time only expires: a fresh command stays fresh for good, a fresh rpc exactly until its deadline plus the skew, and a refused budget or an expired deadline never becomes acceptable |
| Wire.MetaRoundTrip | packages/contracts/src/envelope.ts:33-57 | the meta schema parses exactly the meta that was written, with an absent traceparent absent again |
| Wire.EnvelopeArrives | packages/contracts/src/envelope.ts:59-70 | a signable envelope comes out of JSON.stringify and JSON.parse as it went in, but for the JSON image of its payload |
| Wire.EnvelopeOverTheWire | packages/contracts/src/envelope.ts:59-72 | the envelope schema then parses the same meta and signature out of it |
| Wire.ReplyOverTheWire | packages/contracts/src/envelope.ts:79-106 | a signable reply, success or refusal, with or without error data, is parsed back from its JSON text |
| SignedText.EnvelopeSpelled | packages/contracts/src/envelope.ts:59-70 | the envelope on the wire, key by key |
| SignedText.ReplySpelled | packages/contracts/src/envelope.ts:79-106 | the reply on the wire, key by key, for both outcomes |
| SignedText.MetaExactly | packages/contracts/src/envelope.ts:33-57 | the meta schema accepts exactly the objects whose eleven named keys hold values of the declared kinds, with the id lengths, the declared plan, resource and operation and safe-integer times it asks for |
| SignedText.EnvelopeExactly | packages/contracts/src/envelope.ts:59-72 | the envelope schema accepts exactly a meta, a signature of sixteen or more characters and any payload or none |
| SignedText.ReplyExactly | packages/contracts/src/envelope.ts:79-106 | the reply schema, told by `ok`, accepts exactly a success with any data or none, and a refusal whose error has two texts and any data or none |
| Registry.RoutesExactly | packages/registry/src/derive.ts:359-375 | a route is in the table if and only if some resource declares the operation, and then its subject is `rpc` or `cmd` by the rule's transport, dot, resource, dot, operation, its owner is the resource's and its event subject, present exactly when the rule audits, starts with `evt` |
| Registry.FindRouteExactly | packages/registry/src/derive.ts:359-375 | looking a route up by resource and operation finds it exactly when the operation is declared, and then with that rule's transport, owner, subject and event, each spelled out |
| Registry.SubjectInjective | packages/registry/src/derive.ts:295-314 | with dot-free names a subject determines its prefix, resource and operation |
| Registry.SubjectsPartition | packages/registry/src/derive.ts:295-375 | no two routes share a request subject or an event subject, and no event subject is a request subject |
| Registry.MaxTimeoutIsMaximum | packages/registry/src/derive.ts:377-384 | MAX_TIMEOUT_MS bounds every declared budget and is one of them |
| Registry.RoleHoldsPermission | packages/registry/src/derive.ts:174-205 | a role that clears an operation's minimum holds its permission: the role gate implies the permission gate |
| Registry.PermissionExactly | packages/registry/src/derive.ts:174-205 | with colon-free resource names, a role holds the permission resource, colon, operation exactly when it clears the declared minimum |
| Registry.RuleExactly | packages/registry/src/derive.ts:70-87 | the rule of an operation is the one declared by the resource with that key, and there is none otherwise |
| Registry.AccessExactly | packages/registry/src/derive.ts:244-285 | one more unit is allowed if and only if the plan has a limit that is unlimited or at least the usage plus one; it is not in the plan exactly when there is no limit or it is false |
| Wiring.BootExactly | packages/guardrail/src/service.ts:138-201 | a service boots exactly when it handles only declared operations it owns, and all of them; it then serves exactly the routes it owns |
| Wiring.RoutingPartition | packages/guardrail/src/service.ts:138-201 | when every service boots, each route is bound by one service, its owner |
| Wiring.ServiceUserExactly | infra/nats/generate-auth.ts:201-241 | beside control traffic a service may publish exactly the events it emits and subscribe to exactly the rpc subjects it serves |
| Wiring.PermissionsPartition | infra/nats/generate-auth.ts:187-280 | over all generated users: a request subject is published by the gateway alone, an rpc subject heard by its owner alone, an event subject published by its owner alone |
| Wiring.ServiceUserAll | infra/nats/generate-auth.ts:201-241 | the whole of a service's two lists, control traffic included: JetStream's API of exactly the streams it pulls from, the acknowledgements, and its own inbox |
| Wiring.ConsumedExactly | infra/nats/generate-auth.ts:163-216 | a service pulls from the command stream exactly when it owns a command and from the event stream exactly when it consumes events |
| Wiring.StreamNamedExactly | infra/nats/generate-auth.ts:163-175 | the stream a prefix names is the first with a subject that starts with it, and there is none exactly when no stream has one |
| Wiring.BootstrapExactly | infra/nats/generate-auth.ts:243-254 | the bootstrap user may publish exactly the account information request and the creation, update and information requests of every stream |
| Wiring.OtherUsersAll | infra/nats/generate-auth.ts:187-267 | the lists of the gateway and the observer, control traffic included |
| Wiring.InboxesApart | infra/nats/generate-auth.ts:159 | two users with different names may subscribe to different inboxes only |
| Guardrail.RefusedRoleExactly | packages/guardrail/src/escalation.ts:22-33 | a role is refused if and only if the body names it and it is no declared role, or one above the actor's |
| Guardrail.DispatchExactly | packages/guardrail/src/gateway.ts:115-209 | dispatch signs an envelope if and only if every gate's condition, read off the call and the registry, holds: among them that a consuming operation has room in its plan's limit for one more unit; otherwise it fails with the error of the first gate that does not hold, the upgrade decision included |
| Guardrail.DispatchGated | packages/guardrail/src/gateway.ts:188-209 | the envelope carries the session's organisation, user and role, that role's permissions, the call, the plan, the parsed payload, the operation's budget, no traceparent, and the signature over them |
| Guardrail.PermissionGateFollows | packages/guardrail/src/gateway.ts:142-150 | gate 4 never refuses what gate 3 let through |
| Guardrail.EscalationAgrees | packages/guardrail/src/gateway.ts:152-163 | whatever gate 4b lets through on the raw body, gate 5b lets through on the parsed payload after the wire, if parsing keeps or drops `role` |
| Guardrail.HandshakeComplete | packages/guardrail/src/gateway.ts:123-226 | what the gateway builds, the owning service admits after the JSON wire, for every valid registry, if the clocks agree to the skew and an rpc arrives in time |
| Guardrail.InternalComplete | apps/web/src/gateway/internal-envelope.ts:24-50 | a call the gateway makes on its own behalf is admitted if and only if its fixed budget is at most the longest declared one plus the skew |
| Guardrail.InternalExactly | apps/web/src/gateway/internal-envelope.ts:24-50 | such an envelope is an owner's in the name of `system:gateway`, with the one permission, the default plan, four seconds and an empty body |
| Guardrail.CheckExactly | packages/guardrail/src/service.ts:203-304 | handle admits a message if and only if it parses, its signature verifies, a handler is bound, the subject is the route's, it is fresh within two seconds of skew, the permission is listed and no higher role is named; otherwise the first of these to fail gives the reason |
| Guardrail.EventExactly | packages/guardrail/src/service.ts:354-391 | a consumer acts on a message if and only if it parses, verifies as an event, says `success` and arrives on its route's event subject |
| Guardrail.SignedReplyAccepted | packages/transport/src/request.ts:41-100 | a reply signed for a request is accepted for it by both of the gateway's checks |
| Guardrail.ReplyAgreement | packages/guardrail/src/service.ts:303-340 | whatever a handler does, the reply handle signs carries the request's id and is accepted by rpcRequest and dispatch: for a coded error it is a refusal with that very error, for anything else thrown one with the code INTERNAL; handle throws instead exactly when a ServiceError carries data that cannot be signed |
| Guardrail.RefusedAfterReturn | packages/guardrail/src/service.ts:303-340 | a handler that returned is answered with the code INTERNAL if and only if its event's publish failed or its output cannot be signed, and with its output otherwise |
| Guardrail.RefusalAccepted | packages/guardrail/src/service.ts:203-292 | a request a check refuses is told so by a reply it accepts, with NOT_FOUND for no handler, PERMISSION_DENIED for a missing permission or a higher role, DEADLINE_EXCEEDED for an expired one and UNTRUSTED_ENVELOPE for the rest |
| Guardrail.AcceptedReplyBelongs | packages/transport/src/request.ts:50-77 | an accepted reply's signature was made for the same request id, resource, operation and outcome and the same data or error |
| Guardrail.AcceptedForExactly | packages/transport/src/request.ts:41-77 | a reply accepted for one request is accepted for another if and only if both have the same request id, resource and operation |
| Guardrail.UnknownAnswersNobody | packages/guardrail/src/service.ts:120-131 | the pre-signed refusal is accepted for no request, since request ids have at least eight characters |
| Guardrail.UnreadableExactly | packages/guardrail/src/service.ts:120-131 | that refusal names `unknown` for request, resource and operation, and has the code UNTRUSTED_ENVELOPE |
| Guardrail.EventComplete | packages/guardrail/src/service.ts:306-316 | the event emitted for an admitted request is accepted by every consumer on the route's event subject |
| Guardrail.EventIsNoRequest | packages/guardrail/src/service.ts:260-264 | an event envelope presented as a request fails at the signature, on every subject |
| Guardrail.HugeRefused | packages/contracts/src/signing.ts:41-54 | a message whose body holds a number too large fails at the signature in the service, in a consumer and at the gateway, whatever signature it carries |
| Bus.RunKeeps | packages/guardrail/src/service.ts:253-391 | in every run, with publication of unsigned bytes, copies, reordering, redelivery and crashes, each thing that happened is justified by what happened before it |
| Bus.ExecutionSafety | packages/guardrail/src/service.ts:253-304 | each handler execution follows a gateway request with the same meta and payload, in the service that owns the operation, on its own subject, an rpc before its deadline plus the skew |
| Bus.ExecutionAuthorised | packages/guardrail/src/gateway.ts:133-150 | each execution acts for a role that clears the operation's declared minimum |
| Bus.ConsumptionSafety | packages/guardrail/src/service.ts:354-391 | each event a consumer acts on was emitted by an execution, itself preceded by the gateway's signed request |
| Bus.ReplySafety | packages/transport/src/request.ts:41-77 | each reply accepted was signed for that request id, resource, operation and outcome; an accepted success follows an execution of a request with that id, resource and operation, and an accepted refusal with any code but UNTRUSTED_ENVELOPE a request the gateway signed with them |
| Bus.ForgedRefusal | packages/guardrail/src/service.ts:253-264 | in any run, for any meta the schema accepts, publishing it under a signature that is nobody's MAC to any service ends in an accepted refusal with the code UNTRUSTED_ENVELOPE |
| Bus.RoundTrip | packages/guardrail/src/service.ts:253-340 | any run can go on with a call that passes dispatch, its execution by the owner on the payload's JSON image, and an accepted answer that fits the ending: the handler's output, the code, message and data of the error it threw, or INTERNAL when it threw anything else, when the event's publish failed or when the output cannot be signed |
| Bus.EventFollows | packages/guardrail/src/service.ts:306-316 | and when the operation is audited and the handler returned, what lies on the bus afterwards holds an event on `evt`, dot, resource, dot, operation that every consumer accepts as that request's |
| Bus.SharedReply | packages/transport/src/request.ts:41-77 | in any run, a reply accepted for one request is accepted for another with its id, resource and operation although no handler ran for that one |
| Bus.ReplySettles | packages/transport/src/request.ts:41-77 | where no other signed request shares its request id, resource and operation, an accepted success for a request follows an execution of that very request, payload and organisation included, after it was signed |
| Delivery.ConsumeAudit | packages/transport/src/serve.ts:88-97 | the delivery loop acks or naks every message and leaves in the table the rows of the completed events in order |
| Delivery.ConsumeMeter | packages/transport/src/serve.ts:88-97 | the same loop over the meter |
| Delivery.DeliveryExactly | packages/transport/src/serve.ts:70-97 | a delivery completes the event exactly when the consumer's checks pass it and the handler does not throw first; it is acked exactly when nothing goes wrong, or when the handler would have thrown on an event the checks drop |
| Delivery.CountedExactly | services/billing/src/index.ts:66-85 | an event counts if and only if its resource has a billing feature and declares the operation as consuming |
| Delivery.RowsExactly | services/audit/src/index.ts:54-62 | the table holds one row per request id completed at least once, with the organisation, actor, role, resource, operation and request id of the first completion and the outcome `success` |
| Delivery.UsageExactly | services/billing/src/index.ts:66-85 | one unit per request id with a consuming event completed, charged to the organisation and the resource of the first of them |
| Delivery.AtLeastOnce | packages/transport/src/serve.ts:70-97 | under every interleaving of throws, crashes before ack, naks and redeliveries: at most five deliveries of a message, an acked genuine event has had its effect, and nothing else has any |
| Delivery.AttemptExactly | packages/transport/src/serve.ts:70-97 | an attempt delivers a stored message if and only if it is unacked and was delivered at most four times before |
| Delivery.AuditTrail | services/audit/src/audit.service.ts:19-33 | after any such history an id has a row exactly when an event with it completed, the row tells the organisation, actor, role, resource, operation and id of a genuine stored event, and every acked genuine event has one |
| Delivery.MeterTrail | services/billing/src/index.ts:66-85 | after any such history the units are as many as the ids metered, each is charged to the organisation and the resource of a genuine stored countable event with that id, and every acked one's id is among them |
| Delivery.TrailCommissioned | packages/guardrail/src/service.ts:354-391 | end to end: over any run of the bus and any history of deliveries of what lies on it, every audit row names the organisation, actor, role, resource, operation and id of a request the gateway signed and a handler ran, and every unit is charged to the organisation and the resource of such a request |
| Walks.TopLevelValues | tools/guardrail-check.ts:118-129 | the map binds exactly the initialised top-level names, the last declaration winning |
| WalkNodes.TopLevelExactly | tools/guardrail-check.ts:118-129 | a name has a value exactly when some declarator of a top-level variable statement gives it one, and then that of the last such declarator of the last such statement |
| Walks.ReachesVerifier | tools/guardrail-check.ts:591-630 | the walk with its shared mutable set ends on every tree and every cyclic binding map; a hit is a verifier call reachable, and after a miss every name it saw is covered |
| Walks.VisitChildren | tools/guardrail-check.ts:625-629 | visiting every child, found or not, finds a verifier call under some child or leaves all of them covered |
| Walks.HandlerIsVerified | tools/guardrail-check.ts:591-630 | started with an empty set it answers true if and only if a verifier call is reachable through children and bindings: the shared set causes no miss |
| WalkNodes.VerifierExactly | tools/guardrail-check.ts:602-622 | a verifier call is a call of `defineConsumer`, or of `handle` on a name bound to a call of `defineService`, and nothing else |
| WalkNodes.ReachesExactly | tools/guardrail-check.ts:591-630 | what reaches one, kind by kind: a name through its binding, anything else through any of its parts |
| Walks.RootedInZObject | tools/guardrail-check.ts:434-460 | true if and only if the chain of calls, parentheses, members and bindings ends at `z.object`, and then what was pushed is the expression and every initialiser on the chain |
| WalkNodes.StripExactly | tools/guardrail-check.ts:441-459 | calls, parentheses and member accesses are looked through; the access `z.object` ends the chain, and so does a name |
| Walks.ScanForOrgId | tools/guardrail-check.ts:406-426 | reports the org-id fields of a tree in text order, skipping what `.omit` is called with |
| Walks.ReportedExactly | tools/guardrail-check.ts:398-426 | nothing is reported exactly where nothing is declared outside an omit argument |
| WalkNodes.OmittedExactly | tools/guardrail-check.ts:398-411 | a call of `.omit`, whatever its arguments, reports what its owner does |
| WalkNodes.ReportsExactly | tools/guardrail-check.ts:406-426 | any other node reports its own field name first and then its parts in the order of the text |
| Walks.CheckContractInput | tools/guardrail-check.ts:462-478 | an input is called indirect exactly when it is no such chain; silence means exactly that the chain exists and declares no org id anywhere along it |
| Register.SerialIsRemainder | infra/nats/generate-auth.ts:66-73 | a shift register fed bit by bit ends with the remainder of long division of the message followed by sixteen zeros, for every register obeying the laws |
| Register.SerialIsRounds | infra/nats/generate-auth.ts:55-64 | feeding up to fifteen bits is adding them at the top and running that many rounds |
| Crc.XmodemLaws | infra/nats/generate-auth.ts:60-62 | the eight-round step of CRC-16/XMODEM obeys those laws: it is xor-linear, loses no information and shifts each bit up |
| Crc.BuildTable | infra/nats/generate-auth.ts:55-64 | the nested loops fill all 256 entries: entry i is what long division of the byte i and sixteen zeros by x^16 + x^12 + x^5 + 1, done by hand on bits, leaves |
| Crc.SerialByte | infra/nats/generate-auth.ts:69-70 | one table-driven update takes in the eight bits of a byte |
| Crc.WithChecksum | infra/nats/generate-auth.ts:66-73 | the table-driven loop leaves the message and appends two bytes, low byte first, which are what that division of the message and sixteen zeros leaves, for every byte sequence |
| Crc.ChecksumByHand | infra/nats/generate-auth.ts:55-73 | the register's division of a message is the schoolbook division of its bits by the seventeen bits of the divisor |
| Crc.ChecksumLinear | infra/nats/generate-auth.ts:66-73 | for messages of one length the checksum is xor-linear |
| Crc.OneByteDetected | infra/nats/generate-auth.ts:66-73 | changing any one byte changes the checksum |
| Word.FilledIn | infra/nats/generate-auth.ts:43 | shifting a 32-bit word left and or-ing a digit in is multiplying and adding, kept to 32 bits |
| Word.RightIsShift | infra/nats/generate-auth.ts:46 | shifting down one place at a time is the unsigned shift, for every distance the loops use |
| Word.MaskedLow | infra/nats/generate-auth.ts:46 | masking a 32-bit word keeps the number's low bits |
| Nkey.Base32 | infra/nats/generate-auth.ts:38-52 | the streaming loop over the 32-bit word that is shifted and never masked writes the message's bits regrouped in fives, zero-filled at the end |
| Nkey.LettersExactly | infra/nats/generate-auth.ts:36-52 | letter k spells bits 5k to 5k + 4, zeros past the end, in the alphabet A to Z and 2 to 7, and there are as many letters as groups of five |
| Nkey.DecodeSeed | infra/nats/generate-auth.ts:86-102 | the decoding loop returns bytes 2 to 34 of the regrouped bits, and throws exactly on a character outside the alphabet |
| Nkey.Base32RoundTrip | infra/nats/generate-auth.ts:38-102 | decoding undoes base32 on every byte sequence |
| Nkey.EncodeSeed | infra/nats/generate-auth.ts:80-84 | a seed is the base32 text of prefix, raw bytes and checksum |
| Nkey.SeedByHand | infra/nats/generate-auth.ts:75-84 | those bits are the two prefix bytes, written out, the raw bytes, and the low and the high byte of what division by hand leaves of both |
| Nkey.SeedRoundTrip | infra/nats/generate-auth.ts:80-102 | decodeSeed returns what encodeSeed was given if and only if it was 32 bytes long |
| Nkey.ChecksumUnread | infra/nats/generate-auth.ts:86-102 | any two bytes, 32 bytes and any two bytes again, written in base32, decode to the 32: neither prefix nor checksum is checked |
| Nkey.SeedStartsWithSU | infra/nats/generate-auth.ts:75-84 | every encoded seed starts with "SU" |
| Nkey.SeedIsKept | infra/nats/generate-auth.ts:375-389 | so loadOrCreateSeed, run again without rotation, returns the seed and leaves the file as it was |
| Nkey.SeedChosen | infra/nats/generate-auth.ts:375-389 | a seed on file stands, and rotation, no file or a file without a seed draws a new one and writes it with a line end |
| RateLimit.InMemoryStore.Incr | apps/web/src/gateway/ratelimit.ts:33-43 | counts the request in its key's bucket or opens a new one, touches no other key, and hands out the bucket itself |
| RateLimit.Limit | apps/web/src/gateway/ratelimit.ts:117-130 | a request nobody interrupts is judged by the count it made |
| RateLimit.Interleaved | apps/web/src/gateway/ratelimit.ts:33-43 | the store's map and mutable buckets, hit and read back in any order, take the states of the run and answer each request as the run says |
| RateLimit.SeenExactly | apps/web/src/gateway/ratelimit.ts:124-125 | the count a request is judged by is the number of arrivals in its window at the moment it reads the bucket |
| RateLimit.AdmittedExactly | apps/web/src/gateway/ratelimit.ts:117-129 | a request is let in if and only if it reads its bucket before one more than max have entered its window |
| RateLimit.WindowAdmits | apps/web/src/gateway/ratelimit.ts:33-43 | under every interleaving a window lets in at most min(arrivals, max), and exactly that many if and only if, in the order of events, each of its first max arrivals reads the bucket before one more than max have arrived |
| RateLimit.TogetherAllRefused | apps/web/src/gateway/ratelimit.ts:117-129 | under every rule with a window of at least a second, one more than max requests that all arrive before any of them reads its bucket are all refused |
| RateLimit.OneAtATimeExact | apps/web/src/gateway/ratelimit.ts:117-129 | requests that run one at a time get exactly min(requests, max) into each window |
| RateLimit.AtMostTwice | apps/web/src/gateway/ratelimit.ts:33-43 | windows of one key are disjoint, and any half-open interval of one window's length lets in at most 2 * max, however requests interleave |
| RateLimit.RefusalWaits | apps/web/src/gateway/ratelimit.ts:124-128 | every refusal asks for the least number of whole seconds, at least one, after which the window it was judged by is over |
| RateLimit.WaitPays | apps/web/src/gateway/ratelimit.ts:124-129 | a request made after that wait is let in if max is at least one and none came between |
| RateLimit.SharedStoreExact | apps/web/src/gateway/ratelimit.ts:55-75 | on the shared store's success path each aligned window lets in exactly min(requests, max), in whatever order the increments arrive, and the bound on an interval holds |
| RateLimit.SharedRefusalWaits | apps/web/src/gateway/ratelimit.ts:56-59 | a refusal by the shared store asks for the least number of whole seconds, at least one, until the next window starts |
| Projects.ProjectStore.List | services/projects/src/project.service.ts:18-38 | a page is the beginning of a newest-first arrangement of the rows the filters select, with a cursor when one more row was fetched |
| Projects.ProjectStore.Handle | services/projects/src/project.handlers.ts:28-63 | each handler does to the table and answers what its specification says, conflicts and missing rows included |
| Projects.PageExactly | services/projects/src/project.service.ts:18-38 | the rows selected are the organisation's, archived ones only when asked for, created before the cursor's millisecond; newest first, cut at the limit, with the last row's millisecond as cursor exactly when more were selected |
| Projects.CreateExactly | services/projects/src/project.handlers.ts:28-45 | a creation conflicts on the organisation's own slug, errs on an id in use, and otherwise adds one row with the given columns at the end |
| Projects.UpdateExactly | services/projects/src/project.service.ts:78-96 | an update rewrites exactly the addressed rows: the name and description given, archived now or not at all as asked, updated now, every other column kept |
| Projects.DeleteExactly | services/projects/src/project.service.ts:98-104 | a deletion removes exactly the rows the id addresses in the organisation |
| Projects.NeverTwice | services/projects/src/project.service.ts:18-38 | following nextCursor over a fixed table returns no row more often than the table holds it, and newest first, whatever order ties come in |
| Projects.FollowingEnds | services/projects/src/project.service.ts:35-37 | with a limit of at least one it ends, after at most one page more than there are rows |
| Projects.PageLoses | services/projects/src/project.service.ts:26-37 | a page's end loses nothing exactly when the extra row fetched is of an earlier millisecond than the last row kept |
| Projects.PagingByPages | services/projects/src/project.service.ts:18-38 | the concatenated pages are a whole answer to the query if and only if no page ended inside a millisecond |
| Projects.PagingExactly | services/projects/src/project.service.ts:18-38 | the same read off the table: for every way of following the cursor to the end, the pages are a whole answer if and only if, in the wanted rows newest first, no multiple of the limit falls between two rows of one millisecond |
| Projects.PagingComplete | services/projects/src/project.service.ts:18-38 | in particular when no two selected rows share a millisecond |
| Projects.SplitLosesRow | services/projects/src/project.service.ts:26-37 | two rows a microsecond apart with a limit of one: the second is never shown |
| Projects.OthersUntouched | services/projects/src/project.service.ts:57-104 | a call of one organisation leaves every other organisation's rows unchanged |
| Projects.TenantRuns | services/projects/src/project.service.ts:40-104 | what a call does and answers is decided by its own organisation's rows |
| Projects.TenantReads | services/projects/src/project.service.ts:18-33 | so is what a page may show |
| Projects.TenantsApart | services/projects/src/project.service.ts:18-104 | through any history an organisation has the rows and gets the answers of the history with everybody else left out |
| Identity.NormalizedIsHighest | packages/registry/src/derive.ts:216-223 | a comma list normalises to the highest role it claims, to member when it claims none; an unknown name never raises anybody |
| Identity.NormalizedName | packages/registry/src/derive.ts:216-223 | a role's own name normalises to that role |
| IdentityColumns.SplitExactly | packages/registry/src/derive.ts:216-223 | the claims are the parts between the column's commas, none of which holds a comma |
| IdentityColumns.TrimExactly | packages/registry/src/derive.ts:216-223 | a claim loses the white space around it and nothing else |
| Identity.KeyedKept | services/identity/src/identity.service.ts:43-204 | every handler keeps primary keys unique in the three tables |
| Identity.LastOwnerStays | services/identity/src/index.ts:29-39 | over any one-at-a-time run in which the organisation itself uses neither member.delete nor organization.delete, an organisation with an owner keeps one, and one with an owner who has a user row keeps such an owner |
| Identity.CreatedOwned | services/identity/src/identity.service.ts:153-174 | an organisation is created with an owner, its creator |
| Identity.RefusalLeaves | services/identity/src/index.ts:43-197 | a call is refused and changes the tables if and only if it is a role change that passes every check, finds another role to overwrite and no user to show, or the deletion of an organisation without a row that has members or invitations |
| Identity.RoleWrittenUnseen | services/identity/src/identity.service.ts:108-126 | a role change that is refused as an error and made |
| Identity.DeletedUnfound | services/identity/src/identity.service.ts:194-204 | a deletion that is answered with not found and made |
| Identity.OwnSlugRefused | services/identity/src/index.ts:155-158 | renaming to a slug no other organisation holds succeeds if and only if the organisation does not hold it itself already, and conflicts otherwise |
| Identity.RemovalExactly | services/identity/src/index.ts:76-85 | member.delete leaves an owner if and only if a row other than the one removed is an owner's |
| Identity.RemovalOrphans | services/identity/src/index.ts:76-85 | a run in which it does not |
| Identity.NeverTwoPending | services/identity/src/index.ts:53-74 | over any run an organisation has at most one pending invitation per address |
| Identity.InvitedOnce | services/identity/src/index.ts:53-74 | a redelivered invitation is accepted and changes nothing |
| IdentityColumns.InviteExactly | services/identity/src/identity.service.ts:59-78 | without a pending invitation for the address one row is added: the organisation, the address, the role's name, pending, the inviter, expiring 48 hours on |
| IdentityColumns.RevokeExactly | services/identity/src/identity.service.ts:80-86 | taking an invitation back removes the organisation's row with that id and no other |
| IdentityColumns.RemoveExactly | services/identity/src/identity.service.ts:43-49 | removing a member removes the organisation's rows with that id and no other |
| IdentityColumns.SetRoleExactly | services/identity/src/identity.service.ts:108-126 | a role change writes the role's name into the addressed rows where they stand, and nothing else |
| IdentityColumns.GrantedExactly | services/identity/src/index.ts:106-128 | it is written if and only if the role is none above the caller's, the member exists, and an owner demoted is not the only one |
| IdentityColumns.JoinedOwnersExactly | services/identity/src/index.ts:29-39 | the owners counted are the organisation's members with that role who have a user row |
| IdentityColumns.LeaveExactly | services/identity/src/index.ts:183-196 | leaving takes the caller's own row and leaves every other, and conflicts exactly for the only owner |
| IdentityColumns.ReadExactly | services/identity/src/identity.service.ts:18-57 | the lists and the organisation shown, column by column |
| IdentityColumns.CreateExactly | services/identity/src/identity.service.ts:153-174 | creating adds the organisation and its creator's membership as owner, and conflicts exactly on a slug held |
| IdentityColumns.RenameExactly | services/identity/src/identity.service.ts:176-192 | renaming changes the name and slug given in the organisation's row and nothing else |
| IdentityColumns.DeleteExactly | services/identity/src/identity.service.ts:194-204 | deleting removes the organisation's row, its members and its invitations and nothing else |
| IdentityService.Database.InsertOrganization | services/identity/src/identity.service.ts:153-174 | both rows are written or neither |
| IdentityService.Database.Invited | services/identity/src/index.ts:53-74 | member.create: accepted without a second row when a pending invitation of the organisation has the address |
| IdentityService.Database.RoleChanged | services/identity/src/index.ts:106-128 | member.update: no role above the caller's own, no demotion of the last owner, an error after the write when there is nobody to show |
| IdentityService.Database.Left | services/identity/src/index.ts:183-196 | membership.delete: only the caller's own row, and not the last owner's |
| IdentityService.Database.OrganizationCreated | services/identity/src/index.ts:141-153 | organization.create: a taken slug conflicts, otherwise both rows or neither |
| IdentityService.Database.OrganizationUpdated | services/identity/src/index.ts:155-170 | organization.update: a taken slug conflicts, otherwise the organisation's row changes in the columns given |
| IdentityService.Database.Handle | services/identity/src/index.ts:43-197 | every handler, step by step over the tables, does and answers what its specification says |
| Tenancy.OthersUntouched | services/identity/src/identity.service.ts:17-204 | a handler run for one organisation leaves every other organisation's rows unchanged, but for the new organisation it may create |
| Tenancy.TenantRuns | services/identity/src/identity.service.ts:17-204 | what it does and answers is decided by its own rows and the user table, unless it asks for a slug somebody else holds: then it conflicts |
| Tenancy.TwoRuns | services/identity/src/identity.service.ts:17-204 | the same call in two databases that agree on the organisation's rows and the users has the same answer and the same effect on them |
| Tenancy.TenantsApart | services/identity/src/identity.service.ts:17-204 | through any history in which it asks for nobody else's slug, an organisation gets the answers and keeps the rows of a history without the others |

## Left out

- Numbers with fractions or negative exponents, and integers JavaScript prints with an exponent: a number is an
  integer or not finite. Beyond 2^53 an integer keeps its digits here, up to where a double becomes Infinity.
- Json.ParseIsParsed: speaks of texts whose numbers are integers, with or without a positive exponent.
- Times of calls and budgets of rules are safe integers, as every clock reading and every declared budget is.
- Big integers, symbols and objects with a `toJSON` of their own do not occur.
- Sparse arrays, class instances other than Date, and getters: an object is its own enumerable string keys.
- Strength of sha256 and HMAC, `timingSafeEqual`, Ed25519 keys and key files' permissions.
- The contracts' schemas: the parsed payload of a call is a parameter with the hypothesis that parsing keeps or drops
  `role`. The meta, envelope, reply and event schemas are modelled.
- Handler bodies inside the bus: a handler returns any value, throws a coded error or throws anything else.
- The texts of error messages, logging, and the mapping of coded errors to HTTP failures (`toFailure`).
- Bus.RoundTrip: leaves out a coded error whose data cannot be signed, since handle then throws and nothing answers the
  request (`Guardrail.ReplyAgreement`).
- Bytes that are not JSON at all: the service answers them as it answers a handler that threw, with the refusal
  signed at boot; a message on the modelled bus is a parsed value.
- The reply of a command, which the service computes and throws away, is on the modelled bus as well: that only adds
  messages anybody may present.
- JetStream's deduplication window, backoff and stream age: a stored message may be delivered again in any order, up
  to five times to a durable consumer.
- `allowResponses` and the system account in the generated permissions; two event-consuming services are a list here.
- The upgrade decision's texts, the next plan and the remaining count: `checkResourceAccess` answers allowed, not in
  plan or limit reached.
- Fail-open answers of the shared limiter: `RateLimit.SharedStoreExact` is about its success path.
- RateLimit.WaitPays: says nothing when other requests for the key open a window during the wait.
- Wall clocks that run backwards: arrivals of one limiter key are in order of its clock.
- Projects.PagingExactly: for a table that does not change between pages, as the source promises nothing else; an
  invalid cursor string, which the database driver rejects, does not occur, and an absent, null or empty one is none.
- Projects.ProjectStore.List: the page keeps microseconds in its rows, where the driver hands out milliseconds.
- The order of rows in the identity lists, and the image, logo, metadata and creation columns.
- Concurrent handlers over the identity tables: one handler runs at a time. Better Auth's own writes to them are not
  steps of the runs.
- An organization.update with neither name nor slug: the contract refuses it, and the model answers an error.
- Identity.LastOwnerStays: member.delete and organization.delete of the organisation itself are outside the run,
  since the first has no guard and the second is meant to end it; both may be used by others meanwhile.
- In the checker's walks, nodes the walks do not tell apart are lists of children, and a name is plain text: line
  numbers, files, regular-expression rules and TypeScript's scanner are not part of this model.
- Entitlement caching, plan lookup, navigation, slug helpers, pages and styles: one-branch facts or pure I/O.
