# CMI payment callback core, in Dafny

This project models the core of a small Node.js service that sits between
a shop and the CMI card-payment gateway. There are two copies of the
server:

- `server-backup.js` keeps every transaction in Redis under
  `transaction:<id>` for an hour. Its callback handler reads the record,
  verifies the gateway's hash, updates the record, writes it back,
  notifies the consumer application (a Bubble.io endpoint) and answers
  the gateway with an acknowledgment literal. It also serves a status
  endpoint.
- `server.js` keeps no state. Its callback verifies the hash and, when
  the hash is valid, forwards the gateway's own fields to the consumer.
  Those fields include the custom data the payment carried, which is
  HTML-entity encoded JSON.

The heart of both copies is `verifyCMIHash`. It builds a canonical hash
string from the posted form:

1. It takes the form's keys in insertion order and sorts them by
   lower-cased name.
2. It strips line ends from each value and percent-decodes it.
3. It escapes `\` and then `|`.
4. It skips `hash` and `encoding` (and, in `server.js`, `customdata`).
5. It appends `value|` for each kept field, then the escaped store key.
6. It compares base64(SHA-512(text)) with the raw `HASH` field.

Every exception along the way makes the verdict `false`.

Modules, one file each:

| file | module | what it holds |
|---|---|---|
| `wrappers.dfy` | `Wrappers` | `Option` |
| `js_values.dfy` | `JsValues` | posted values, JavaScript truthiness and `\|\|`, the form as an ordered list of pairs, property reads |
| `text.dfy` | `Text` | ASCII lower-casing, code-point order, trailing-character stripping, global literal replacement |
| `key_sort.dfy` | `KeySort` | the key order, the stable sort as a function, and the in-place sort on an array proved against it |
| `escaping.dfy` | `Escaping` | the `\` / `\|` escape, the hash-string layout, and a parser that reads it back |
| `cmi_hash.dfy` | `CmiHash` | both copies of `verifyCMIHash`: the specification functions, the imperative method, and the security lemmas |
| `transactions.dfy` | `Transactions` | the transaction record, create validation, classification, acknowledgments, the record update, and the notification payload |
| `store_server.dfy` | `StoreBackedServer` | the Redis-backed handlers: a `TransactionStore` class whose methods are proved against pure specification functions, and lemmas over them |
| `stateless_server.dfy` | `StatelessServer` | the stateless callback, custom-data decoding, and the forwarded payload |

Foreign operations enter as parameters:

- `decodeURIComponent` is a partial function (`None` when it throws).
- base64(SHA-512(·)) is an uninterpreted `digest`.
- `JSON.parse` is a partial function.
- The configured store key may be unset.
- The clock and the random id suffix are inputs.
- Each Redis call's failure is a boolean input.
- The consumer's acceptance of a notification is a boolean input.

## Model

| member | source | states |
|---|---|---|
| JsValues.Or | server-backup.js:174 | `a \|\| b` is truthy exactly when one side is; it yields the left side when that is truthy and the right side otherwise |
| JsValues.Field | server-backup.js:372 | a property read is undefined exactly when no field has that name, and otherwise yields a value posted under it |
| JsValues.FieldIffMember | server-backup.js:372 | with distinct keys, reading `k` yields `v` exactly when the pair `(k, v)` was posted |
| Text.DropTrailing | server-backup.js:349 | `.replace(/\n$/, "")` removes exactly one final occurrence of the character and nothing else |
| Text.LowerHasNoUpper | server-backup.js:340 | a lower-cased key holds no upper-case ASCII letter |
| Text.LowerIdempotent | server-backup.js:340 | lower-casing an already lower-cased key changes nothing |
| Text.StrLessTotal | server-backup.js:340 | code-point comparison is total: two strings are equal or one precedes the other |
| Text.StrLessTransitive | server-backup.js:340 | code-point comparison is transitive |
| Text.ReplaceAllSingleConcat | server-backup.js:351 | replacing a one-character pattern distributes over concatenation |
| Text.ReplaceAllRemoves | server.js:191 | after a global replacement by a character the pattern does not contain, no occurrence of the pattern is left |
| Text.ReplaceAllKeepsAbsent | server.js:191 | such a replacement creates no occurrence of a text that contains neither the new character nor was present before |
| Text.ReplaceAllAbsent | server.js:191 | text without the pattern's first character is left unchanged |
| KeySort.KeyLessTotal | server-backup.js:340 | two keys either compare equal up to case, or one sorts before the other |
| KeySort.SortKeys | server-backup.js:340 | the stable sort returns as many keys as it is given; the lemmas below state the rest |
| KeySort.SortInPlace | server-backup.js:340 | the in-place array sort leaves the array holding the stable sort of its old contents |
| KeySort.InsertInPlace | server-backup.js:340 | one insertion step inserts the i-th key into the sorted prefix and leaves the rest of the array alone |
| KeySort.SortKeysPermutation | server-backup.js:340 | sorting keeps exactly the same keys, with their multiplicities |
| KeySort.SortKeysSorted | server-backup.js:340 | the sorted keys are in non-decreasing lower-cased order |
| KeySort.SortKeysStable | server-backup.js:340 | keys equal up to case keep their insertion order |
| KeySort.SortKeysCaseDistinct | server-backup.js:340 | sorting keeps keys pairwise distinct up to case |
| KeySort.SortedUnique | server-backup.js:340 | two sorted, case-distinct orderings of the same keys are identical |
| KeySort.SortKeysOrderIndependent | server-backup.js:333-340 | for case-distinct keys the sorted order does not depend on insertion order |
| Escaping.Escape | server-backup.js:351 | doubling every `\` and then prefixing every `\|` equals the independent one-character-at-a-time escape |
| Escaping.Join | server-backup.js:355 | the accumulated `value\|` text is empty exactly when no value is kept |
| Escaping.CanonicalRoundTrip | server-backup.js:347-364 | the hash string (escaped values, each followed by `\|`, then the escaped key) parses back into exactly those values and that key |
| Escaping.CanonicalInjective | server-backup.js:347-364 | different value lists or keys never give the same hash string |
| Escaping.UnescapeEscape | server-backup.js:351 | unescaping an escaped value returns the original |
| Escaping.EscapePlain | server-backup.js:363 | text with no `\` or `\|` is left unchanged by escaping |
| CmiHash.VerifyCMIHash | server-backup.js:322-385 | the imperative check collects, sorts and accumulates, returns `false` when any step throws (a body field named `hasOwnProperty` included), and otherwise returns exactly the specification verdict `Verify` of its variant (the stateless copy is the same method with the stateless rules) |
| CmiHash.Verify | server-backup.js:369-380 | the verdict is true only when nothing threw, the body does not shadow `hasOwnProperty`, and it carries a string `HASH` equal to the digest of the hash string |
| CmiHash.Pieces | server-backup.js:347-360 | the accumulation succeeds exactly when every sorted key, kept or excluded, reads as a decodable string, and keeps at most one value per key |
| CmiHash.OwnKeys | server-backup.js:333-337 | the key-collecting loop fills a fresh array with the body's own keys in insertion order, and fails exactly when the body's own `hasOwnProperty` field shadows the method |
| CmiHash.HashValues | server.js:247-269 | the `forEach` accumulator yields `value\|` for each kept key in sorted order, or fails as soon as any field throws |
| CmiHash.StoreBackedStripRules | server-backup.js:349 | the store-backed copy strips one final `\n`, then one final `\r`; a value ending in neither is unchanged |
| CmiHash.StatelessStripRules | server.js:254 | the stateless copy strips only one final `\n`, so a final `\r` stays |
| CmiHash.ExclusionRules | server-backup.js:352-359 | `HASH` and `Encoding` are left out in any letter case, while signed fields such as `ProcReturnCode` and `oid` are kept |
| CmiHash.StatelessExcludesCustomData | server.js:256-264 | only the stateless copy leaves out `customData`, in any letter case |
| CmiHash.ExclusionIgnoresCase | server-backup.js:352-354 | for every pair of keys equal up to case, both are kept or both are left out |
| CmiHash.StatelessExclusion | server.js:256-264 | for every key, the stateless copy leaves it out exactly when the store-backed copy does or its lower-cased name is `customdata` |
| CmiHash.PiecesNoneIfAnyFails | server-backup.js:347-360 | a field that throws on `.replace` or on decoding aborts the whole hash string |
| CmiHash.VerifyRejects | server-backup.js:349-384 | a non-string value or a malformed escape in any field (including `HASH` and the excluded ones) makes the verdict false |
| CmiHash.VerifiedFormIsWellFormed | server-backup.js:333-384 | for every body, empty or not, a true verdict means a string `HASH` is present, `hasOwnProperty` is not shadowed, and every field reads as a decodable string |
| CmiHash.ExcludedFieldIgnored | server-backup.js:354-359 | changing an excluded field to another decodable value does not change the hash string |
| CmiHash.SignedFormVerifies | server-backup.js:369-380 | a body whose `HASH` is the digest of its own hash string verifies |
| CmiHash.HashTamperRejected | server-backup.js:372-380 | changing `HASH` on a verified body makes it fail |
| CmiHash.KeptFieldTamperNeedsCollision | server-backup.js:347-380 | changing a kept field's decoded value changes the hash string, so both bodies verify only if the digest collides |
| CmiHash.HashStringParses | server-backup.js:347-365 | the hash string reads back into the kept decoded values in sorted order, followed by the store key |
| CmiHash.KeyTextEscapes | server-backup.js:363-364 | the string's tail is the escape of what the concatenation sees, `undefined` when the key is unset |
| CmiHash.UnsetStoreKeyFailsOpen | server-backup.js:363-364 | with the store key unset, the hash string and the verdict are those of the public key `undefined` |
| CmiHash.OrderIndependent | server-backup.js:333-360 | for case-distinct keys, field arrival order changes neither the hash string nor the verdict |
| Transactions.NewTransaction | server-backup.js:106-117 | the new record has the given id, status pending, the posted fields, and description defaulting to "Payment"; it has no timestamps or gateway response |
| Transactions.CreateReplyFor | server-backup.js:77-79 | create is rejected with "Missing required fields" exactly when amount, email, phone or name is falsy; otherwise it answers with the new id |
| StatelessServer.CreateReply | server.js:47-123 | the stateless create handler rejects a request with a falsy amount, email, phone or name, and otherwise answers with the id built from the clock and the random suffix |
| Transactions.Classify | server-backup.js:199-250 | the outcome is `HashInvalid` exactly for an invalid hash, and `Approved` exactly for a valid hash with the string code "00" |
| Transactions.Ack | server-backup.js:224-273 | `ACTION=POSTAUTH` is sent exactly for an approval and `FAILED` exactly for an invalid hash |
| Transactions.ClassificationTable | server-backup.js:199-276 | `ACTION=POSTAUTH` exactly for a valid hash with code "00", `APPROVED` for a valid hash with another code, `FAILED` exactly for an invalid hash; the label `security_failed` exactly for an invalid hash |
| Transactions.AckInjective | server-backup.js:217-273 | distinct outcomes get distinct acknowledgments and distinct notification labels |
| Transactions.ApplyOutcome | server-backup.js:199-254 | approval sets completed and `completedAt`; anything else (an invalid hash too) sets failed and `failedAt`; the other timestamp and all identity fields are kept; `cmiResponse` becomes the form |
| Transactions.ReplayRestamps | server-backup.js:199-254 | applying the same outcome twice re-stamps the timestamp with the later time |
| Transactions.FailedThenCompletedKeepsBoth | server-backup.js:199-254 | a failure followed by an approval leaves both `failedAt` and `completedAt` set |
| Transactions.NotificationOf | server-backup.js:282-298 | the notification copies the record's id, amount, contact fields, description, timestamps and gateway response, with the given label |
| Transactions.StatusProjection | server-backup.js:400-407 | the status view shows the record's id, status, amount and three timestamps |
| StoreBackedServer.TransactionStore.Get | server-backup.js:183 | a read fails exactly when the client throws, and otherwise returns the live record, if any |
| StoreBackedServer.TransactionStore.SetEx | server-backup.js:123 | a write that does not throw stores the record under the key with an expiry 3600 seconds ahead; nothing else changes |
| StoreBackedServer.TransactionStore.Create | server-backup.js:63-128 | the create handler replies as `CreateReplyFor`, stores the pending record unless validation or the write fails, and keeps every record under the key of its own id |
| StoreBackedServer.TransactionStore.Callback | server-backup.js:168-279 | the callback handler replies, notifies and updates the store exactly as the decision functions say, keeps every record under the key of its own id, and whether the consumer accepted the notification affects nothing else |
| StoreBackedServer.TransactionStore.Status | server-backup.js:388-412 | the status reply is 500 on a read failure, 404 for no live record, and the projection of the live record otherwise |
| StoreBackedServer.CallbackTable | server-backup.js:174-276 | missing id gives 400; an id whose conversion to text throws, or a read failure, gives 500 "Database error"; no live record gives 404; otherwise 200 with the classification's acknowledgment |
| StoreBackedServer.Decide | server-backup.js:174-199 | the id is missing exactly when `ReturnOid \|\| oid` is falsy, the `try` around the read fails exactly when, for a present id, either building `transaction:${transactionId}` or the client throws, and a resolved callback names the live record stored under `transaction:<id>` and classifies an invalid hash as such |
| StoreBackedServer.StoreAfterCallback | server-backup.js:199-261 | only a resolved callback whose write succeeds changes the store: it writes the record updated by the outcome under its own key with an expiry one hour from now, and leaves every other key alone |
| StoreBackedServer.CallbackNotice | server-backup.js:215-271 | a notification is attempted exactly for a resolved callback, carrying the record's id, the outcome's label and the posted form |
| StoreBackedServer.StatusReplyFor | server-backup.js:388-412 | the record is shown exactly when the read succeeds and a live record exists, as its projection; errors are 500 exactly for a failed read, and 404 otherwise |
| StoreBackedServer.SetExThenLive | server-backup.js:123 | a record written at `now` is read back unchanged until `now + 3600` and not after, and the write leaves every other key's reads alone |
| StoreBackedServer.CallbackEffects | server-backup.js:205-273 | only a resolved callback writes or notifies, and a failed write leaves the store unchanged without changing the reply or the notification |
| StoreBackedServer.ApprovedCallbackCompletes | server-backup.js:199-224 | an approved callback stores the record completed, with `completedAt`, the form and a fresh hour, keeps every other field of the record, acknowledges `ACTION=POSTAUTH`, and leaves every other key alone |
| StoreBackedServer.InvalidHashMarksFailed | server-backup.js:250-273 | an invalid hash stores status failed (not `security_failed`) with `failedAt`, the form and a fresh hour, keeps every other field of the record, acknowledges `FAILED`, labels the notification `security_failed`, and leaves every other key alone |
| StoreBackedServer.DeclinedCallbackMarksFailed | server-backup.js:225-248 | a valid hash with any `ProcReturnCode` other than `"00"` stores status failed with `failedAt`, the form and a fresh hour, keeps every other field of the record, acknowledges `APPROVED`, labels the notification `failed`, and leaves every other key alone |
| StoreBackedServer.UnconvertibleIdIsDatabaseError | server-backup.js:182-194 | an id whose conversion to text throws (a JSON object with a non-function `toString`) gives 500 "Database error" whatever the store holds, writes nothing and notifies nobody |
| StoreBackedServer.ExpiredIsNotFound | server-backup.js:183-190 | an expired record is answered 404 by both the callback and the status endpoint |
| StoreBackedServer.CallbackKeepsKeysMatchIds | server-backup.js:208 | a callback keeps every record under the key of its own id |
| StoreBackedServer.CreateKeepsKeysMatchIds | server-backup.js:123 | a create keeps every record under the key of its own id |
| StoreBackedServer.NoticeCarriesUpdatedRecord | server-backup.js:282-298 | the notification carries the updated record's fields, timestamps and gateway response, with the outcome's label |
| StoreBackedServer.NoticeNamesCallbackId | server-backup.js:283 | in a consistent store, the notified transaction id is the one the callback named |
| StoreBackedServer.CreateThenStatus | server-backup.js:400-407 | within the hour after a create, the status endpoint shows the id, status pending, the creation time and no completion or failure time |
| StoreBackedServer.CallbackThenStatus | server-backup.js:400-407 | within the hour after a resolved callback, the status endpoint shows the callback's status and timestamp |
| StoreBackedServer.ReplayRestampsStore | server-backup.js:199-224 | the same approved callback delivered again within the hour is processed again and re-stamps `completedAt` |
| StatelessServer.StatelessTable | server.js:132-177 | missing id gives 400 with no notification; an invalid hash gives `FAILED` with no notification; a valid hash notifies `success` or `failed` and acknowledges `ACTION=POSTAUTH` or `APPROVED` |
| StatelessServer.StatelessCallback | server.js:127-182 | the reply is 400 exactly when `ReturnOid \|\| oid` is falsy and 200 otherwise, and a notification is attempted only for a present id and a valid hash |
| StatelessServer.DecodeEntities | server.js:191 | no `&#34;` and no `&#39;` survives the decoding, and custom data with no `&` is parsed as it was posted |
| StatelessServer.DecodesQuote | server.js:191 | a leading `&#34;` decodes to `"` and the rest is decoded on its own |
| StatelessServer.DecodesApostrophe | server.js:191 | a leading `&#39;` decodes to `'` and the rest is decoded on its own |
| StatelessServer.DecodesOther | server.js:191 | a leading character that does not begin `&#34;` or `&#39;` (any character but `&`, in particular) is kept and the rest is decoded on its own |
| StatelessServer.DecodeEntitiesIsLeftToRight | server.js:191 | the two global replacements equal a single left-to-right decoding that turns each `&#34;` into `"`, each `&#39;` into `'`, and keeps every other character |
| StatelessServer.CustomData | server.js:186-196 | falsy custom data is `{}`, and the custom data is `null` only when it is a string that parses to `null` |
| StatelessServer.PayloadOf | server.js:198-211 | the payload is built exactly when the custom data is not `null`, with the given status and the whole posted form |
| StatelessServer.AckIgnoresNotification | server.js:150-172 | the acknowledgment depends neither on the clock nor on the custom data |
| StatelessServer.PayloadFields | server.js:198-206 | the payload takes the id from `ReturnOid \|\| oid`, the name from `BillToName` and the phone from `tel`, embeds the whole form, and always sets `completedAt` |
| StatelessServer.CustomDataFallback | server.js:186-196 | absent, non-string or unparsable custom data leaves `guest_id` and `donated_to` undefined, and the payload is still built |
| StatelessServer.CustomDataMembers | server.js:187-210 | custom data that parses to an object supplies its `guest_id` and `donated_to` |
| StatelessServer.NullCustomDataDropsNotice | server.js:185-211 | custom data that parses to `null` makes the notification throw before it is sent, while the acknowledgment is unchanged |

Behaviour of the code a caller may not expect; the model follows it:

- An unset store key is not treated as an error. The literal text
  `undefined` is appended to the hash string
  (`CmiHash.UnsetStoreKeyFailsOpen`).
- Nothing makes the callback idempotent. A replay is processed again and
  re-stamps its timestamp, and the opposite timestamp is never cleared
  (`StoreBackedServer.ReplayRestampsStore`,
  `Transactions.FailedThenCompletedKeepsBoth`).
- An invalid hash is stored as status `failed`. Only the notification
  label is `security_failed`.
- The stateless payload sets `completedAt` for declined payments too.
- The stateless server sends no notification for an invalid hash, while
  the store-backed one does.
- A body with its own field named `hasOwnProperty` makes the
  `formData.hasOwnProperty(key)` call throw, so the verdict is `false`
  (`CmiHash.OwnKeys`). The model treats JSON and URL-encoded bodies alike
  here: either may carry such a field.
- Because the keys sort by lower-cased name, the order in which a
  JavaScript object enumerates integer-like keys does not matter for a
  body whose keys are all distinct up to case: the sort alone fixes the
  result (`CmiHash.OrderIndependent`). The lemma covers only such bodies;
  one holding, say, both `oid` and `Oid` is not covered.

## Left out

- HTTP routing, CORS, the success and failure HTML pages, `/health` and `app.listen`: these are framework glue and presentation.
- The Redis client: it is a map with key prefix and expiry, and each call's failure is an input. Connection events, the JSON encoding of records and the concurrent interleaving of two callbacks for one id are not modelled.
- The `fetch` to the consumer, its timeout and its response parsing: only the payload and a success flag are modelled.
- The payment-form SDK (`redirect_post`) and the `paymentForm` in the create reply: it is a foreign library.
- StoreBackedServer.TransactionStore.Create: does not model the 500 "Payment creation failed" reply. Nothing is stored when the SDK constructor (server-backup.js:85) throws, or when `amount.toString()` (server-backup.js:94) throws for a JSON object whose own `toString` member is not a function. When `redirect_post` (server-backup.js:154) throws, the pending record written at server-backup.js:123 stays stored and the reply is still 500. The SDK is foreign and the create request keeps only the raw amount, so the model always replies with the id.
- StatelessServer.CreateReply: does not model the same 500 reply, reached when the SDK constructor (server.js:69), `amount.toString()` (server.js:78) or `redirect_post` (server.js:113) throws.
- Strings: Dafny characters are Unicode scalar values, while JavaScript strings are UTF-16 code units. Lone surrogates cannot be written, and code-point order differs from code-unit order for characters outside the Basic Multilingual Plane.
- The custom data `server.js` sends to the SDK at create time (`JSON.stringify` of `guest_id` and `donated_to`): it only reaches the gateway through the SDK.
- SHA-512 and the hex-to-base64 re-encoding: they form one uninterpreted `digest`, so collision resistance is an assumption stated in the lemmas, not a proof.
- `decodeURIComponent`: it is a partial function parameter, not Unicode percent-decoding.
- `toLowerCase` and `localeCompare`: they are approximated by ASCII lower-casing and code-point order. `localeCompare` always compares by ICU collation, which differs from code-point order even within ASCII: punctuation such as `_` and `:` sorts before digits, for example. Keys made only of letters, digits and `.`, which covers the gateway's own field names, sort the same under both orders once lower-cased; for other keys the real order can differ.
- `parseFloat` amounts: an amount records only which raw value it was parsed from.
- `Date.now`, `new Date().toISOString()` and `Math.random`: they are inputs. The model does not bound the length of the id suffix.
- Logging, including the store-backed server logging the raw store key: it has no effect on behaviour.
- The outer `catch` blocks of the callback handlers: every step inside already catches its own errors, so none of them is reachable in the model.
- An escaped value containing no bare separator is not stated as a separate lemma. The same fact is stated as the unambiguity of the whole string (`Escaping.CanonicalRoundTrip`, `Escaping.CanonicalInjective`).
